/**
 The bounded registry of viewers and the ring of link events. The clock is a parameter; the order in
 which entries are visited is left open.
 */
module ViewerRegistry {
  import opened Bytes

  const SAMPLE_CAP := 240
  const VIEWER_MAX := 8
  const EVENT_CAP := 200
  const GC_AFTER := 30 * 60 * 1_000_000_000   // 30 minutes in nanoseconds

  datatype Report = Report(
    viewerId: string, selfAddr: string, mode: string, rttMs: int, kbpsUp: int, kbpsDown: int,
    bandwidthClass: string, t2NormalMs: Option<int>, t2PrioMs: Option<int>)

  datatype Sample = Sample(
    at: int, mode: string, rttMs: int, kbpsUp: int, kbpsDown: int,
    bandwidthClass: string, t2NormalMs: Option<int>, t2PrioMs: Option<int>)

  datatype Entry = Entry(latest: Report, updatedAt: int, samples: seq<Sample>)

  datatype Event = Event(at: int, kind: string, sessionId: string, detail: string)

  type Viewers = map<string, Entry>

  function Key(r: Report): string {
    if r.viewerId != "" then r.viewerId else r.selfAddr
  }

  function SampleOf(now: int, r: Report): Sample {
    Sample(now, r.mode, r.rttMs, r.kbpsUp, r.kbpsDown, r.bandwidthClass, r.t2NormalMs, r.t2PrioMs)
  }

  /** The last n elements, or all of them if there are fewer. */
  function LastOf<T>(n: nat, s: seq<T>): seq<T> {
    if |s| > n then s[|s| - n..] else s
  }

  lemma LastOfSnoc<T>(n: nat, s: seq<T>, x: T)
    requires n > 0
    ensures LastOf(n, LastOf(n, s) + [x]) == LastOf(n, s + [x])
  {
  }

  // ----- one report -----

  function Again(e: Entry, now: int, r: Report): Entry {
    Entry(r, now, LastOf(SAMPLE_CAP, e.samples + [SampleOf(now, r)]))
  }

  function First(now: int, r: Report): Entry {
    Entry(r, now, [SampleOf(now, r)])
  }

  /** Without the entries that have gone 30 minutes without a report. */
  function Collected(v: Viewers, now: int): Viewers {
    map k | k in v && now - v[k].updatedAt <= GC_AFTER :: v[k]
  }

  ghost predicate NoneOlder(v: Viewers, now: int) {
    forall k :: k in v ==> v[k].updatedAt >= now
  }

  /** The key that is deleted from a full registry: a least recent one, or the empty key if none is older than now. */
  ghost predicate Evictable(v: Viewers, now: int, out: string) {
    if NoneOlder(v, now) then out == ""
    else out in v && v[out].updatedAt < now && forall k :: k in v ==> v[out].updatedAt <= v[k].updatedAt
  }

  /** One report may take the registry from v to w. */
  ghost predicate Next(v: Viewers, now: int, r: Report, w: Viewers) {
    var key := Key(r);
    if key in v then w == Collected(v[key := Again(v[key], now, r)], now)
    else if |v| < VIEWER_MAX then w == Collected(v[key := First(now, r)], now)
    else exists out :: Evictable(v, now, out) && w == Collected((v - {out})[key := First(now, r)], now)
  }

  // ----- runs -----

  datatype Step = Step(now: int, report: Report)

  /** vs are the registries before, between and after the reports of h, from an empty one on. */
  ghost predicate Run(h: seq<Step>, vs: seq<Viewers>) {
    && |vs| == |h| + 1 && vs[0] == map[]
    && forall i :: 0 <= i < |h| ==> Next(vs[i], h[i].now, h[i].report, vs[i + 1])
  }

  lemma RunPrefix(h: seq<Step>, vs: seq<Viewers>)
    requires Run(h, vs) && h != []
    ensures Run(h[..|h| - 1], vs[..|h|])
    ensures Next(vs[|h| - 1], h[|h| - 1].now, h[|h| - 1].report, vs[|h|])
  {
    hide Next;
    var n := |h| - 1;
    var g, us := h[..n], vs[..n + 1];
    forall i | 0 <= i < |g| ensures Next(us[i], g[i].now, g[i].report, us[i + 1]) {
      assert g[i] == h[i] && us[i] == vs[i] && us[i + 1] == vs[i + 1];
      assert Next(vs[i], h[i].now, h[i].report, vs[i + 1]);
    }
  }

  /** Who is in the registry after a step, and what their entry is. */
  lemma NextEntries(v: Viewers, now: int, r: Report, w: Viewers)
    requires Next(v, now, r, w)
    ensures Key(r) in w && w[Key(r)] == if Key(r) in v then Again(v[Key(r)], now, r) else First(now, r)
    ensures forall k :: k in w && k != Key(r) ==> k in v && w[k] == v[k]
    ensures forall k :: k in w ==> now - w[k].updatedAt <= GC_AFTER
  {
  }

  /** The entry's latest report, its time, and the samples: the last 240 with this one. */
  ghost predicate Shows(v: Viewers, name: string, now: int, r: Report, e: Entry) {
    var sample := Sample(now, r.mode, r.rttMs, r.kbpsUp, r.kbpsDown, r.bandwidthClass, r.t2NormalMs, r.t2PrioMs);
    var all := (if name in v then v[name].samples else []) + [sample];
    e.latest == r && e.updatedAt == now && e.samples == if |all| > 240 then all[|all| - 240..] else all
  }

  /** Of the others all but the one that is evicted stay as they were, if heard of within 30 minutes. */
  ghost predicate OthersStay(v: Viewers, name: string, out: Option<string>, now: int, w: Viewers) {
    forall k :: k != name ==>
      && (k in w <==> k in v && out != Some(k) && now - v[k].updatedAt <= 1_800_000_000_000)
      && (k in w ==> w[k] == v[k])
  }

  /**
   What one report does to any registry. The viewer goes by its ID or, without one, by its address; a new one
   evicts a longest silent viewer from a registry of eight or more, if anyone is older than now.
   */
  lemma ReportExact(v: Viewers, now: int, r: Report, w: Viewers)
    requires Next(v, now, r, w)
    ensures var name := if r.viewerId != "" then r.viewerId else r.selfAddr;
      && name in w && Shows(v, name, now, r, w[name])
      && if name in v || |v| < 8 then OthersStay(v, name, None, now, w)
         else exists out :: OthersStay(v, name, Some(out), now, w) &&
                if forall k :: k in v ==> v[k].updatedAt >= now then out == ""
                else out in v && v[out].updatedAt < now && forall k :: k in v ==> v[out].updatedAt <= v[k].updatedAt
  {
    var key := Key(r);
    NextEntries(v, now, r, w);
    if key !in v && |v| >= VIEWER_MAX {
      var out := NextFull(v, now, r, w);
      assert OthersStay(v, key, Some(out), now, w);
    }
  }

  /** Nobody survives a report that came 30 minutes after their last one. */
  lemma NoneStale(h: seq<Step>, vs: seq<Viewers>, k: string)
    requires Run(h, vs) && h != [] && k in vs[|h|]
    ensures h[|h| - 1].now - vs[|h|][k].updatedAt <= GC_AFTER
  {
    hide Next;
    RunPrefix(h, vs);
    NextEntries(vs[|h| - 1], h[|h| - 1].now, h[|h| - 1].report, vs[|h|]);
  }

  /** The samples of one viewer's reports. */
  function SamplesOf(h: seq<Step>, k: string): seq<Sample> {
    if h == [] then []
    else
      var s := h[|h| - 1];
      SamplesOf(h[..|h| - 1], k) + if Key(s.report) == k then [SampleOf(s.now, s.report)] else []
  }

  /** Viewer k joined with the report at place i and has stayed until the end. */
  ghost predicate JoinedAt(h: seq<Step>, vs: seq<Viewers>, k: string, i: nat) {
    && |vs| == |h| + 1 && i < |h| && Key(h[i].report) == k && k !in vs[i]
    && forall j :: i < j <= |h| ==> k in vs[j]
  }

  /** Whatever the clock does: a viewer's samples are the last ones of all its reports since it joined, in order. */
  lemma {:induction false} SamplesAreLatest(h: seq<Step>, vs: seq<Viewers>, k: string) returns (i: nat)
    requires Run(h, vs) && k in vs[|h|]
    ensures JoinedAt(h, vs, k, i)
    ensures vs[|h|][k].samples == LastOf(SAMPLE_CAP, SamplesOf(h[i..], k))
    decreases |h|
  {
    hide Next, Again;
    var n := |h| - 1;
    RunPrefix(h, vs);
    var g, us, s := h[..n], vs[..n + 1], h[n];
    NextEntries(vs[n], s.now, s.report, vs[n + 1]);
    if k in vs[n] {
      i := SamplesAreLatest(g, us, k);
      Stays(h, vs, k, i);
      var before := SamplesOf(g[i..], k);
      assert h[i..][..|h[i..]| - 1] == g[i..] && h[i..][|h[i..]| - 1] == s;
      if Key(s.report) == k {
        AgainSamples(vs[n][k], s.now, s.report);
        LastOfSnoc(SAMPLE_CAP, before, SampleOf(s.now, s.report));
      } else {
        assert before + [] == before;
      }
    } else {
      i := n;
      OneReport(h, k);
    }
  }

  /** The last report of a viewer. */
  function LastReport(h: seq<Step>, k: string): Option<Step> {
    if h == [] then None
    else if Key(h[|h| - 1].report) == k then Some(h[|h| - 1])
    else LastReport(h[..|h| - 1], k)
  }

  /** In every run an entry shows its viewer's last report and the time of it. */
  lemma {:induction false} EntryIsLatest(h: seq<Step>, vs: seq<Viewers>, k: string)
    requires Run(h, vs) && k in vs[|h|]
    ensures LastReport(h, k) == Some(Step(vs[|h|][k].updatedAt, vs[|h|][k].latest))
    decreases |h|
  {
    hide Next;
    var n := |h| - 1;
    RunPrefix(h, vs);
    NextEntries(vs[n], h[n].now, h[n].report, vs[n + 1]);
    if Key(h[n].report) != k {
      EntryIsLatest(h[..n], vs[..n + 1], k);
    }
  }

  lemma AgainSamples(e: Entry, now: int, r: Report)
    ensures Again(e, now, r).samples == LastOf(SAMPLE_CAP, e.samples + [SampleOf(now, r)])
  {
  }

  lemma OneReport(h: seq<Step>, k: string)
    requires h != [] && Key(h[|h| - 1].report) == k
    ensures SamplesOf(h[|h| - 1..], k) == [SampleOf(h[|h| - 1].now, h[|h| - 1].report)]
  {
    var one := h[|h| - 1..];
    assert one[..0] == [] && one[0] == h[|h| - 1];
    assert SamplesOf(one[..0], k) == [];
  }

  lemma Stays(h: seq<Step>, vs: seq<Viewers>, k: string, i: nat)
    requires h != [] && |vs| == |h| + 1 && k in vs[|h|]
    requires JoinedAt(h[..|h| - 1], vs[..|h|], k, i)
    ensures JoinedAt(h, vs, k, i)
  {
    var us := vs[..|h|];
    assert us[i] == vs[i] && h[..|h| - 1][i] == h[i];
    forall j | i < j <= |h| ensures k in vs[j] {
      assert j < |h| ==> us[j] == vs[j];
    }
  }

  // ----- the registry as a least-recently-updated cache -----

  predicate ClockIncreases(h: seq<Step>) {
    forall i, j :: 0 <= i < j < |h| ==> h[i].now < h[j].now
  }

  /** The time of every viewer's last report. */
  function Seen(h: seq<Step>): map<string, int> {
    if h == [] then map[] else Seen(h[..|h| - 1])[Key(h[|h| - 1].report) := h[|h| - 1].now]
  }

  /** Those heard of since x was. */
  function Newer(seen: map<string, int>, x: string): set<string>
    requires x in seen
  {
    set y | y in seen && seen[y] > seen[x]
  }

  /** No two viewers were last heard of at the same time, and all were heard of before now. */
  predicate Apart(seen: map<string, int>, now: int) {
    && (forall x, y :: x in seen && y in seen && seen[x] == seen[y] ==> x == y)
    && forall x :: x in seen ==> seen[x] < now
  }

  lemma {:induction false} SeenApart(h: seq<Step>, now: int)
    requires ClockIncreases(h) && (h != [] ==> h[|h| - 1].now < now)
    ensures Apart(Seen(h), now)
    decreases |h|
  {
    if h != [] {
      SeenApart(h[..|h| - 1], h[|h| - 1].now);
    }
  }

  lemma {:induction false} SubsetSize<T>(a: set<T>, b: set<T>)
    requires a <= b
    ensures |a| <= |b|
  {
    if a != {} {
      var x :| x in a;
      SubsetSize(a - {x}, b - {x});
    }
  }

  lemma NewerGrows(seen: map<string, int>, key: string, now: int, x: string)
    requires Apart(seen, now) && x in seen && x != key
    ensures Newer(seen, x) <= Newer(seen[key := now], x)
    ensures |Newer(seen, x)| <= |Newer(seen[key := now], x)|
  {
    SubsetSize(Newer(seen, x), Newer(seen[key := now], x));
  }

  /** The registry with the new report, and the entries it was taken over from. */
  ghost predicate Entered(v: Viewers, now: int, r: Report, mid: Viewers, gone: set<string>) {
    var key := Key(r);
    && mid.Keys == v.Keys - gone + {key} && key !in gone
    && mid[key].updatedAt == now
    && (forall k :: k in mid && k != key ==> mid[k] == v[k])
    && |mid| <= VIEWER_MAX
    && (forall x :: x in gone ==> IsOldest(v, x) && |v| == VIEWER_MAX && key !in v)
  }

  ghost predicate IsOldest(v: Viewers, x: string) {
    x in v && forall k :: k in v ==> v[x].updatedAt <= v[k].updatedAt
  }

  lemma {:induction false} Enters(v: Viewers, now: int, r: Report, w: Viewers)
      returns (mid: Viewers, gone: set<string>)
    requires Next(v, now, r, w) && |v| <= VIEWER_MAX && forall k :: k in v ==> v[k].updatedAt < now
    ensures Entered(v, now, r, mid, gone) && w == Collected(mid, now)
  {
    hide Collected, Key, Again, First, Entered, Evictable;
    var key := Key(r);
    if key in v {
      mid, gone := v[key := Again(v[key], now, r)], {};
      AgainTime(v[key], now, r);
      EntersWith(v, now, r, Again(v[key], now, r));
    } else if |v| < VIEWER_MAX {
      mid, gone := v[key := First(now, r)], {};
      FirstTime(now, r);
      EntersWith(v, now, r, First(now, r));
    } else {
      var out := Chosen(v, now, r, w);
      mid, gone := (v - {out})[key := First(now, r)], {out};
      EvictsOne(v, now, r, out);
    }
  }

  lemma EntersWith(v: Viewers, now: int, r: Report, e: Entry)
    requires e.updatedAt == now && |v| <= VIEWER_MAX && (Key(r) in v || |v| < VIEWER_MAX)
    ensures Entered(v, now, r, v[Key(r) := e], {})
  {
    hide Key, IsOldest;
    PutSize(v, Key(r), e);
  }

  lemma AgainTime(e: Entry, now: int, r: Report)
    ensures Again(e, now, r).updatedAt == now
  {
  }

  lemma PutSize(v: Viewers, key: string, e: Entry)
    ensures v[key := e].Keys == v.Keys + {key} && |v[key := e]| == if key in v then |v| else |v| + 1
  {
    assert v[key := e].Keys == v.Keys + {key};
    assert |v[key := e]| == |v[key := e].Keys| && |v| == |v.Keys|;
    assert key in v ==> v[key := e].Keys == v.Keys;
  }

  lemma Chosen(v: Viewers, now: int, r: Report, w: Viewers) returns (out: string)
    requires Next(v, now, r, w) && |v| == VIEWER_MAX && Key(r) !in v
    ensures Evictable(v, now, out) && w == Collected((v - {out})[Key(r) := First(now, r)], now)
  {
    hide Collected, Key, First, Evictable;
    out :| Evictable(v, now, out) && w == Collected((v - {out})[Key(r) := First(now, r)], now);
  }

  lemma EvictsOne(v: Viewers, now: int, r: Report, out: string)
    requires Evictable(v, now, out) && |v| == VIEWER_MAX && Key(r) !in v && forall k :: k in v ==> v[k].updatedAt < now
    ensures Entered(v, now, r, (v - {out})[Key(r) := First(now, r)], {out})
  {
    hide Key, First, IsOldest, Evictable;
    assert !NoneOlder(v, now) by { SomeKey(v); }
    EvictableIsOldest(v, now, out);
    ReplaceOne(v, out, Key(r), First(now, r));
    FirstTime(now, r);
  }

  lemma EvictableIsOldest(v: Viewers, now: int, out: string)
    requires Evictable(v, now, out) && !NoneOlder(v, now)
    ensures IsOldest(v, out) && out in v
  {
  }

  lemma ReplaceOne(v: Viewers, out: string, key: string, e: Entry)
    requires out in v && key !in v
    ensures var mid := (v - {out})[key := e];
      && mid.Keys == v.Keys - {out} + {key} && |mid| == |v| && mid[key] == e
      && forall k :: k in mid && k != key ==> mid[k] == v[k]
  {
    var mid := (v - {out})[key := e];
    assert (v - {out}).Keys == v.Keys - {out};
    assert mid.Keys == v.Keys - {out} + {key};
    assert |mid| == |mid.Keys| && |v| == |v.Keys|;
  }

  lemma FirstTime(now: int, r: Report)
    ensures First(now, r).updatedAt == now
  {
  }

  lemma SomeKey(v: Viewers)
    requires |v| > 0
    ensures exists k :: k in v
  {
    assert |v.Keys| > 0;
    var k :| k in v.Keys;
  }

  /** The last viewer of a full registry to be heard of is newer than the others, and so is the new one. */
  lemma EvictedRank(seen: map<string, int>, now: int, v: Viewers, key: string, x: string)
    requires Apart(seen, now) && |v| == VIEWER_MAX && IsOldest(v, x) && key !in v
    requires forall k :: k in v ==> k in seen && v[k].updatedAt == seen[k]
    ensures |Newer(seen[key := now], x)| >= VIEWER_MAX
  {
    var others := v.Keys - {x} + {key};
    assert |others| == VIEWER_MAX;
    forall k | k in others ensures k in Newer(seen[key := now], x) {
    }
    SubsetSize(others, Newer(seen[key := now], x));
  }

  /** Those kept are known, and carry the time of their last report. */
  ghost predicate Known(seen: map<string, int>, now: int, v: Viewers) {
    forall k :: k in v ==> k in seen && v[k].updatedAt == seen[k] && now - seen[k] <= GC_AFTER
  }

  /** Those heard of since one that is kept are kept. */
  ghost predicate UpClosed(seen: map<string, int>, v: Viewers) {
    forall x, y :: x in v && y in seen && x in seen && seen[y] > seen[x] ==> y in v
  }

  /** Those not kept are too old, or eight others were heard of since. */
  ghost predicate Rightly(seen: map<string, int>, now: int, v: Viewers) {
    forall x :: x in seen && x !in v ==> now - seen[x] > GC_AFTER || |Newer(seen, x)| >= VIEWER_MAX
  }

  lemma KnownStep(
      seen: map<string, int>, before: int, now: int, v: Viewers, r: Report, mid: Viewers, gone: set<string>)
    requires Known(seen, before, v) && Entered(v, now, r, mid, gone)
    ensures Known(seen[Key(r) := now], now, Collected(mid, now))
  {
    hide Known, Entered, Key;
    var later, w := seen[Key(r) := now], Collected(mid, now);
    forall k | k in w ensures k in later && w[k].updatedAt == later[k] && now - later[k] <= GC_AFTER {
      KnownAt(seen, before, now, v, r, mid, gone, k);
    }
    KnownIntro(later, now, w);
  }

  lemma KnownIntro(seen: map<string, int>, now: int, v: Viewers)
    requires forall k :: k in v ==> k in seen && v[k].updatedAt == seen[k] && now - seen[k] <= GC_AFTER
    ensures Known(seen, now, v)
  {
  }

  lemma KnownAt(
      seen: map<string, int>, before: int, now: int, v: Viewers, r: Report, mid: Viewers, gone: set<string>, k: string)
    requires Known(seen, before, v) && Entered(v, now, r, mid, gone) && k in Collected(mid, now)
    ensures var later := seen[Key(r) := now]; k in later && mid[k].updatedAt == later[k] && now - later[k] <= GC_AFTER
  {
    hide Key, IsOldest;
    assert k in mid && now - mid[k].updatedAt <= GC_AFTER;
    if k != Key(r) {
      assert k in v && mid[k] == v[k];
    }
  }

  lemma UpClosedStep(
      seen: map<string, int>, before: int, now: int, v: Viewers, r: Report, mid: Viewers, gone: set<string>)
    requires Known(seen, before, v) && UpClosed(seen, v) && Apart(seen, now) && Entered(v, now, r, mid, gone)
    ensures UpClosed(seen[Key(r) := now], Collected(mid, now))
  {
    hide Known, UpClosed, Entered, Apart;
    var later, w := seen[Key(r) := now], Collected(mid, now);
    forall x, y | x in w && y in later && x in later && later[y] > later[x] ensures y in w {
      UpClosedAt(seen, before, now, v, r, mid, gone, x, y);
    }
    assert UpClosed(later, w) by { UpClosedIntro(later, w); }
  }

  lemma UpClosedIntro(seen: map<string, int>, v: Viewers)
    requires forall x, y :: x in v && y in seen && x in seen && seen[y] > seen[x] ==> y in v
    ensures UpClosed(seen, v)
  {
  }

  lemma {:induction false} UpClosedAt(
      seen: map<string, int>, before: int, now: int, v: Viewers, r: Report, mid: Viewers, gone: set<string>,
          x: string, y: string)
    requires Known(seen, before, v) && UpClosed(seen, v) && Apart(seen, now) && Entered(v, now, r, mid, gone)
    requires x in Collected(mid, now)
    requires var later := seen[Key(r) := now]; y in later && x in later && later[y] > later[x]
    ensures y in Collected(mid, now)
  {
    hide Key;
    var key := Key(r);
    if y != key {
      assert x != key;
      assert x in v && mid[x] == v[x];
      assert y in v && v[y].updatedAt > v[x].updatedAt;
      assert y in mid && mid[y] == v[y];
    }
  }

  lemma RightlyStep(
      seen: map<string, int>, before: int, now: int, v: Viewers, r: Report, mid: Viewers, gone: set<string>)
    requires Known(seen, before, v) && Rightly(seen, before, v) && Apart(seen, now) && before <= now
    requires Entered(v, now, r, mid, gone)
    ensures Rightly(seen[Key(r) := now], now, Collected(mid, now))
  {
    hide Known, Rightly, Entered, Apart, Newer;
    var later, w := seen[Key(r) := now], Collected(mid, now);
    forall x | x in later && x !in w ensures now - later[x] > GC_AFTER || |Newer(later, x)| >= VIEWER_MAX {
      RightlyAt(seen, before, now, v, r, mid, gone, x);
    }
    assert Rightly(later, now, w) by { RightlyIntro(later, now, w); }
  }

  lemma RightlyIntro(seen: map<string, int>, now: int, v: Viewers)
    requires forall x :: x in seen && x !in v ==> now - seen[x] > GC_AFTER || |Newer(seen, x)| >= VIEWER_MAX
    ensures Rightly(seen, now, v)
  {
  }

  lemma RightlyAt(
      seen: map<string, int>, before: int, now: int, v: Viewers, r: Report, mid: Viewers, gone: set<string>, x: string)
    requires Known(seen, before, v) && Rightly(seen, before, v) && Apart(seen, now) && before <= now
    requires Entered(v, now, r, mid, gone)
    requires x in seen[Key(r) := now] && x !in Collected(mid, now)
    ensures var later := seen[Key(r) := now]; now - later[x] > GC_AFTER || |Newer(later, x)| >= VIEWER_MAX
  {
    hide Newer, Key, Apart, IsOldest;
    var key := Key(r);
    assert x != key;
    if x !in v {
      NewerGrows(seen, key, now, x);
    } else if x in gone {
      EvictedRank(seen, now, v, key, x);
    } else {
      assert mid[x] == v[x];
    }
  }

  /** What the registry keeps, with an increasing clock, at time now. */
  ghost predicate Recent(seen: map<string, int>, now: int, v: Viewers) {
    |v| <= VIEWER_MAX && Known(seen, now, v) && UpClosed(seen, v) && Rightly(seen, now, v)
  }

  lemma RecentStep(seen: map<string, int>, before: int, now: int, v: Viewers, r: Report, w: Viewers)
    requires Recent(seen, before, v) && Apart(seen, now) && before <= now
    requires Next(v, now, r, w)
    ensures Recent(seen[Key(r) := now], now, w)
  {
    hide Next, Newer, UpClosed, Rightly;
    var mid, gone := Enters(v, now, r, w);
    KnownStep(seen, before, now, v, r, mid, gone);
    UpClosedStep(seen, before, now, v, r, mid, gone);
    RightlyStep(seen, before, now, v, r, mid, gone);
    assert w.Keys <= mid.Keys;
    SubsetSize(w.Keys, mid.Keys);
  }

  /**
   With a strictly increasing clock the registry is exactly a least-recently-updated cache: after any
   run a viewer is in it if and only if its last report is at most 30 minutes old and fewer than eight
   other viewers have reported since; and there are at most eight.
   */
  lemma {:induction false} LeastRecentlyUpdated(h: seq<Step>, vs: seq<Viewers>)
    requires Run(h, vs) && ClockIncreases(h) && h != []
    ensures |vs[|h|]| <= VIEWER_MAX
    ensures vs[|h|].Keys <= Seen(h).Keys
    ensures forall x :: x in Seen(h) ==> (x in vs[|h|] <==>
      h[|h| - 1].now - Seen(h)[x] <= GC_AFTER && |Newer(Seen(h), x)| < VIEWER_MAX)
  {
    var v, seen := vs[|h|], Seen(h);
    RecentAlways(h, vs);
    forall x | x in v ensures |Newer(seen, x)| < VIEWER_MAX {
      assert Newer(seen, x) <= v.Keys - {x};
      SubsetSize(Newer(seen, x), v.Keys - {x});
    }
  }

  lemma {:induction false} RecentAlways(h: seq<Step>, vs: seq<Viewers>)
    requires Run(h, vs) && ClockIncreases(h) && h != []
    ensures Recent(Seen(h), h[|h| - 1].now, vs[|h|])
    decreases |h|
  {
    hide Next, Recent, Apart;
    var n := |h| - 1;
    var g, us, s := h[..n], vs[..n + 1], h[n];
    RunPrefix(h, vs);
    if g == [] {
      NothingRecent(s.now);
      SeenApart(g, s.now);
      RecentStep(map[], s.now, s.now, map[], s.report, vs[1]);
    } else {
      RecentAlways(g, us);
      SeenApart(g, s.now);
      RecentStep(Seen(g), g[n - 1].now, s.now, vs[n], s.report, vs[n + 1]);
    }
  }

  lemma NothingRecent(now: int)
    ensures Recent(map[], now, map[])
  {
  }

  /** The viewers, other than the one that reports, not heard of for more than 30 minutes. */
  ghost function Stale(v: Viewers, now: int, key: string): set<string> {
    set k | k in v && k != key && now - v[k].updatedAt > GC_AFTER
  }

  /** A full registry in which nobody makes room: no entry is older than now, and none has the empty key. */
  ghost predicate Stuck(v: Viewers, now: int) {
    |v| >= VIEWER_MAX && NoneOlder(v, now) && "" !in v
  }

  /**
   How many viewers there are after a report, whatever there were before. The one that is evicted from a
   full registry is itself stale if anyone is, so a registry past eight shrinks only as viewers go stale.
   */
  lemma SizeExact(v: Viewers, now: int, r: Report, w: Viewers)
    requires Next(v, now, r, w)
    ensures var stale := |Stale(v, now, Key(r))|;
      |w| == if Key(r) in v then |v| - stale
             else if |v| < VIEWER_MAX || Stuck(v, now) || stale > 0 then |v| + 1 - stale
             else |v|
  {
    hide *;
    var key := Key(r);
    FirstTime(now, r);
    if key in v {
      NextKnown(v, now, r, w);
      AgainTime(v[key], now, r);
      CollectedSize(v, {}, key, Again(v[key], now, r), now);
      NobodyGone(v, Stale(v, now, key));
    } else if |v| < VIEWER_MAX {
      NextNew(v, now, r, w);
      CollectedSize(v, {}, key, First(now, r), now);
      NobodyGone(v, Stale(v, now, key));
    } else {
      var out := NextFull(v, now, r, w);
      FullSize(v, now, out, key, First(now, r));
    }
  }

  lemma FullSize(v: Viewers, now: int, out: string, key: string, e: Entry)
    requires Evictable(v, now, out) && key !in v && |v| >= VIEWER_MAX && e.updatedAt == now
    ensures var stale := |Stale(v, now, key)|;
      |Collected((v - {out})[key := e], now)| == if Stuck(v, now) || stale > 0 then |v| + 1 - stale else |v|
  {
    hide *;
    CollectedSize(v, {out}, key, e, now);
    EvictedIs(v, now, out, key);
    var gone := {out} * v.Keys;
    assert Stuck(v, now) ==> |gone| == 0;
    assert !Stuck(v, now) ==> |gone| == 1;
  }

  lemma NextKnown(v: Viewers, now: int, r: Report, w: Viewers)
    requires Next(v, now, r, w) && Key(r) in v
    ensures w == Collected(v[Key(r) := Again(v[Key(r)], now, r)], now)
  {
    hide Collected, Again;
  }

  lemma NextNew(v: Viewers, now: int, r: Report, w: Viewers)
    requires Next(v, now, r, w) && Key(r) !in v && |v| < VIEWER_MAX
    ensures w == Collected(v[Key(r) := First(now, r)], now)
  {
    hide Collected, First;
  }

  lemma NextFull(v: Viewers, now: int, r: Report, w: Viewers) returns (out: string)
    requires Next(v, now, r, w) && Key(r) !in v && |v| >= VIEWER_MAX
    ensures Evictable(v, now, out) && w == Collected((v - {out})[Key(r) := First(now, r)], now)
  {
    hide Collected, First, Evictable, Key;
    out :| Evictable(v, now, out) && w == Collected((v - {out})[Key(r) := First(now, r)], now);
  }

  lemma NobodyGone(v: Viewers, stale: set<string>)
    ensures v - {} == v && {} * v.Keys == {} && stale - {} == stale
  {
  }

  /** What is left when an entry goes, one comes or is renewed, and the stale ones are collected. */
  lemma CollectedSize(v: Viewers, gone: set<string>, key: string, e: Entry, now: int)
    requires key !in gone * v.Keys && e.updatedAt == now
    ensures |Collected((v - gone)[key := e], now)|
            == |v| - |gone * v.Keys| + (if key in v then 0 else 1) - |Stale(v, now, key) - gone|
  {
    var left := v.Keys - gone * v.Keys;
    CollectedKeys(v, gone, key, e, now);
    hide Collected, Stale;
    Counted(v.Keys, gone * v.Keys, key, Stale(v, now, key) - gone);
    assert |v| == |v.Keys|;
    var w := Collected((v - gone)[key := e], now);
    assert |w| == |w.Keys|;
  }

  lemma CollectedKeys(v: Viewers, gone: set<string>, key: string, e: Entry, now: int)
    requires key !in gone * v.Keys && e.updatedAt == now
    ensures Collected((v - gone)[key := e], now).Keys == v.Keys - gone * v.Keys + {key} - (Stale(v, now, key) - gone)
    ensures Stale(v, now, key) - gone <= v.Keys - gone * v.Keys && key !in Stale(v, now, key)
  {
    var mid := (v - gone)[key := e];
    forall k ensures k in Collected(mid, now) <==>
      k in v.Keys - gone * v.Keys + {key} - (Stale(v, now, key) - gone)
    {
      assert k in mid <==> k == key || (k in v && k !in gone);
    }
  }

  lemma Counted(all: set<string>, gone: set<string>, key: string, stale: set<string>)
    requires gone <= all && key !in gone && stale <= all - gone && key !in stale
    ensures |all - gone + {key} - stale| == |all| - |gone| + (if key in all then 0 else 1) - |stale|
  {
    var left := all - gone;
    assert |left| == |all| - |gone|;
    assert |left + {key}| == |left| + (if key in all then 0 else 1) by {
      assert key in all ==> left + {key} == left;
    }
    assert stale <= left + {key};
    assert |left + {key} - stale| == |left + {key}| - |stale|;
  }

  /** Who is evicted, if anyone: a stale viewer, if there is one. */
  lemma EvictedIs(v: Viewers, now: int, out: string, key: string)
    requires Evictable(v, now, out) && key !in v && |v| >= VIEWER_MAX
    ensures {out} * v.Keys == if Stuck(v, now) then {} else {out}
    ensures Stuck(v, now) ==> Stale(v, now, key) == {}
    ensures Stale(v, now, key) != {} ==> out in Stale(v, now, key)
    ensures |Stale(v, now, key) - {out}| == if Stale(v, now, key) == {} then 0 else |Stale(v, now, key)| - 1
  {
    if Stale(v, now, key) != {} {
      var k :| k in Stale(v, now, key);
    }
  }

  /** A registry of at most eight passes eight exactly if it is full and stuck and the viewer is new. */
  lemma CapExact(v: Viewers, now: int, r: Report, w: Viewers)
    requires Next(v, now, r, w) && |v| <= VIEWER_MAX
    ensures |w| > VIEWER_MAX <==> |v| == VIEWER_MAX && Key(r) !in v && Stuck(v, now)
  {
    hide Next, NoneOlder, Stale, Key;
    SizeExact(v, now, r, w);
    if NoneOlder(v, now) {
      FreshAll(v, now, Key(r));
    }
  }

  lemma FreshAll(v: Viewers, now: int, key: string)
    requires NoneOlder(v, now)
    ensures Stale(v, now, key) == {}
  {
  }

  /** Past eight, a report of a new viewer never leaves fewer while nobody is stale. */
  lemma NeverShrinks(v: Viewers, now: int, r: Report, w: Viewers)
    requires Next(v, now, r, w) && Stale(v, now, Key(r)) == {}
    ensures |w| >= |v|
  {
    hide Next, NoneOlder, Stale, Key;
    SizeExact(v, now, r, w);
  }

  /** The report at place i finds the registry full and stuck, and its viewer is new. */
  ghost predicate Overflows(h: seq<Step>, vs: seq<Viewers>, i: nat)
    requires |vs| == |h| + 1 && i < |h|
  {
    |vs[i]| == VIEWER_MAX && Key(h[i].report) !in vs[i] && Stuck(vs[i], h[i].now)
  }

  /** Over a whole run: the registry never holds more than eight exactly if no new viewer finds it full and stuck. */
  lemma {:induction false} CapAlways(h: seq<Step>, vs: seq<Viewers>)
    requires Run(h, vs)
    ensures (forall i :: 0 <= i <= |h| ==> |vs[i]| <= VIEWER_MAX) <==> forall i :: 0 <= i < |h| ==> !Overflows(h, vs, i)
    decreases |h|
  {
    hide Next, Stuck, Key;
    if h != [] {
      var n := |h| - 1;
      RunPrefix(h, vs);
      var g, us := h[..n], vs[..n + 1];
      CapAlways(g, us);
      assert forall i :: 0 <= i < n ==> Overflows(h, vs, i) == Overflows(g, us, i);
      assert forall i :: 0 <= i <= n ==> us[i] == vs[i];
      assert (forall i :: 0 <= i <= |h| ==> |vs[i]| <= VIEWER_MAX)
        <==> (forall i :: 0 <= i <= n ==> |us[i]| <= VIEWER_MAX) && |vs[n + 1]| <= VIEWER_MAX;
      assert (forall i :: 0 <= i < |h| ==> !Overflows(h, vs, i))
        <==> (forall i :: 0 <= i < n ==> !Overflows(g, us, i)) && !Overflows(h, vs, n);
      if |vs[n]| > VIEWER_MAX {
        assert |us[n]| > VIEWER_MAX;
      } else {
        CapExact(vs[n], h[n].now, h[n].report, vs[n + 1]);
      }
    }
  }

  /** The n-th of a row of different viewers. */
  function Caller(n: nat): Report {
    Report(seq(n + 1, _ => 'v'), "", "tunnel", 0, 0, 0, "", None, None)
  }

  /** The key of one of the first n callers. */
  ghost predicate Called(k: string, n: nat) {
    exists i: nat :: i < n && Key(Caller(i)) == k
  }

  lemma CallersDiffer(n: nat)
    ensures !Called("", n) && !Called(Key(Caller(n)), n)
    ensures Called(Key(Caller(n)), n + 1) && forall k :: Called(k, n) ==> Called(k, n + 1)
  {
    forall i: nat | i < n ensures Key(Caller(i)) != "" && Key(Caller(i)) != Key(Caller(n)) {
      assert |Key(Caller(i))| == i + 1 && |Key(Caller(n))| == n + 1;
    }
  }

  /** Reports that all come at one instant are never evicted: the registry grows with them past any size. */
  lemma {:induction false} CrowdAtOnce(now: int, n: nat) returns (h: seq<Step>, vs: seq<Viewers>)
    ensures Run(h, vs) && |h| == n && forall i :: 0 <= i < n ==> h[i] == Step(now, Caller(i))
    ensures |vs[n]| == n && NoneOlder(vs[n], now) && forall k :: k in vs[n] ==> Called(k, n)
  {
    hide Next, Caller, Called, First, NoneOlder, Key;
    if n == 0 {
      h, vs := [], [map[]];
      NobodyOlder(now);
    } else {
      var g, us := CrowdAtOnce(now, n - 1);
      var v, r := us[n - 1], Caller(n - 1);
      CallersDiffer(n - 1);
      JoinsAtOnce(v, now, r);
      var w := v[Key(r) := First(now, r)];
      h, vs := g + [Step(now, r)], us + [w];
      RunGrows(g, us, Step(now, r), w);
    }
  }

  lemma NobodyOlder(now: int)
    ensures NoneOlder(map[], now)
  {
  }

  lemma JoinsAtOnce(v: Viewers, now: int, r: Report)
    requires NoneOlder(v, now) && "" !in v && Key(r) !in v
    ensures var w := v[Key(r) := First(now, r)];
      Next(v, now, r, w) && |w| == |v| + 1 && NoneOlder(w, now)
  {
    hide Key, First;
    FirstTime(now, r);
    var w := v[Key(r) := First(now, r)];
    OneMore(v, Key(r), First(now, r));
    KeepsFresh(w, now);
    assert Evictable(v, now, "");
    RemoveAbsent(v, "");
  }

  lemma OneMore<K, V>(m: map<K, V>, k: K, v: V)
    requires k !in m
    ensures |m[k := v]| == |m| + 1
  {
    assert m[k := v].Keys == m.Keys + {k};
    assert |m[k := v]| == |m[k := v].Keys| && |m| == |m.Keys|;
  }

  lemma RemoveAbsent<K, V>(m: map<K, V>, k: K)
    requires k !in m
    ensures m - {k} == m
  {
  }

  lemma KeepsFresh(v: Viewers, now: int)
    requires NoneOlder(v, now)
    ensures Collected(v, now) == v
  {
  }

  lemma RunGrows(h: seq<Step>, vs: seq<Viewers>, s: Step, w: Viewers)
    requires Run(h, vs) && Next(vs[|h|], s.now, s.report, w)
    ensures Run(h + [s], vs + [w])
  {
    hide Next;
    var g, us := h + [s], vs + [w];
    forall i | 0 <= i < |g| ensures Next(us[i], g[i].now, g[i].report, us[i + 1]) {
      assert i < |h| ==> g[i] == h[i] && us[i] == vs[i] && us[i + 1] == vs[i + 1];
    }
  }

  /** So the cap can be passed: nine reports at one instant leave nine viewers. */
  lemma CapCanBePassed(now: int) returns (h: seq<Step>, vs: seq<Viewers>)
    ensures Run(h, vs) && |h| == VIEWER_MAX + 1 && (forall i :: 0 <= i < |h| ==> h[i].now == now)
    ensures |vs[|h|]| == VIEWER_MAX + 1
  {
    h, vs := CrowdAtOnce(now, VIEWER_MAX + 1);
  }

  // ----- the program -----

  class Handler {
    var viewers: Viewers
    var events: seq<Event>

    constructor ()
      ensures viewers == map[] && events == []
    {
      viewers, events := map[], [];
    }

    method RecordP2pViewerReport(now: int, r: Report)
      modifies this`viewers
      ensures Next(old(viewers), now, r, viewers)
    {
      hide Collected;
      var key := Key(r);
      if key in viewers {
        var e := viewers[key];
        var samples := e.samples + [SampleOf(now, r)];
        if |samples| > SAMPLE_CAP {
          samples := samples[|samples| - SAMPLE_CAP..];
        }
        viewers := viewers[key := Entry(r, now, samples)];
      } else {
        if |viewers| >= VIEWER_MAX {
          var out := Oldest(now);
          viewers := viewers - {out};
        }
        viewers := viewers[key := Entry(r, now, [SampleOf(now, r)])];
      }
      Collect(now);
    }

    method Oldest(now: int) returns (oldestKey: string)
      ensures Evictable(viewers, now, oldestKey)
    {
      var oldestAt;
      oldestKey, oldestAt := "", now;
      var rest := viewers.Keys;
      while rest != {}
        invariant rest <= viewers.Keys
        invariant forall k :: k in viewers && k !in rest ==> oldestAt <= viewers[k].updatedAt
        invariant oldestAt <= now
        invariant if oldestAt == now then oldestKey == ""
            else oldestKey in viewers && viewers[oldestKey].updatedAt == oldestAt
      {
        var k :| k in rest;
        rest := rest - {k};
        if viewers[k].updatedAt < oldestAt {
          oldestKey, oldestAt := k, viewers[k].updatedAt;
        }
      }
    }

    method Collect(now: int)
      modifies this`viewers
      ensures viewers == Collected(old(viewers), now)
    {
      var rest := viewers.Keys;
      while rest != {}
        invariant rest <= viewers.Keys <= old(viewers).Keys
        invariant forall k :: k in old(viewers) ==>
          (k in viewers <==> k in rest || now - old(viewers)[k].updatedAt <= GC_AFTER)
        invariant forall k :: k in viewers ==> viewers[k] == old(viewers)[k]
      {
        var k :| k in rest;
        rest := rest - {k};
        if now - viewers[k].updatedAt > GC_AFTER {
          viewers := viewers - {k};
        }
      }
    }

    method RecordP2pLinkEvent(e: Event)
      modifies this`events
      ensures events == LastOf(EVENT_CAP, old(events) + [e])
      ensures forall all :: old(events) == RingAfter(all) ==> events == RingAfter(all + [e])
    {
      events := events + [e];
      if |events| > EVENT_CAP {
        events := events[|events| - EVENT_CAP..];
      }
      assert forall all :: (all + [e])[..|all + [e]| - 1] == all;
    }
  }

  /** The ring after a run of events. */
  function RingAfter(all: seq<Event>): seq<Event> {
    if all == [] then [] else LastOf(EVENT_CAP, RingAfter(all[..|all| - 1]) + [all[|all| - 1]])
  }

  /** However many events come in, the ring holds the last 200 of them in order. */
  lemma {:induction false} RingHoldsLatest(all: seq<Event>)
    ensures RingAfter(all) == if |all| > 200 then all[|all| - 200..] else all
  {
    if all != [] {
      var front, e := all[..|all| - 1], all[|all| - 1];
      RingHoldsLatest(front);
      LastOfSnoc(EVENT_CAP, front, e);
      assert all == front + [e];
    }
  }
}
