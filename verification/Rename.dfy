/**
 Replacing every occurrence of one camera ID by another, as both the disk move and the database do:
 left to right, without overlaps.
 */
module Rename {

  function ReplaceAll(s: string, from: string, to: string): string
    requires from != ""
    decreases |s|
  {
    if s == "" then ""
    else if from <= s then to + ReplaceAll(s[|from|..], from, to)
    else [s[0]] + ReplaceAll(s[1..], from, to)
  }

  /** At every character the replacement keeps, the new string does not happen to spell `to`. */
  predicate Clean(s: string, from: string, to: string)
    requires from != ""
    decreases |s|
  {
    if s == "" then true
    else if from <= s then Clean(s[|from|..], from, to)
    else !(to <= ReplaceAll(s, from, to)) && Clean(s[1..], from, to)
  }

  /** Renaming back undoes the renaming exactly when the path is clean. */
  lemma {:induction false} UndoExact(s: string, from: string, to: string)
    requires from != "" && to != ""
    ensures ReplaceAll(ReplaceAll(s, from, to), to, from) == s <==> Clean(s, from, to)
    decreases |s|
  {
    if s == "" {
    } else if from <= s {
      var rest := s[|from|..];
      var renamed := ReplaceAll(rest, from, to);
      UndoExact(rest, from, to);
      assert to <= to + renamed && (to + renamed)[|to|..] == renamed;
      var undone := ReplaceAll(renamed, to, from);
      assert s == from + rest;
      assert from + undone == from + rest ==> undone == rest by {
        assert (from + undone)[|from|..] == undone && (from + rest)[|from|..] == rest;
      }
    } else {
      var renamed := ReplaceAll(s[1..], from, to);
      UndoExact(s[1..], from, to);
      if to <= [s[0]] + renamed {
        assert from <= ReplaceAll([s[0]] + renamed, to, from);
      } else {
        assert ([s[0]] + renamed)[1..] == renamed;
        assert s == [s[0]] + s[1..];
      }
    }
  }

  /** `from` occurs nowhere in s. */
  predicate Absent(s: string, from: string) {
    forall i :: 0 <= i <= |s| ==> !(from <= s[i..])
  }

  lemma {:induction false} AbsentUnchanged(s: string, from: string, to: string)
    requires from != "" && Absent(s, from)
    ensures ReplaceAll(s, from, to) == s
    decreases |s|
  {
    if s != "" {
      assert s[0..] == s;
      assert forall i :: 0 <= i <= |s[1..]| ==> s[1..][i..] == s[i + 1..];
      AbsentUnchanged(s[1..], from, to);
    }
  }

  /** A stretch in which no occurrence begins is passed over unchanged. */
  lemma {:induction false} PassOver(head: string, tail: string, from: string, to: string)
    requires from != ""
    requires forall i :: 0 <= i < |head| ==> !(from <= (head + tail)[i..])
    ensures ReplaceAll(head + tail, from, to) == head + ReplaceAll(tail, from, to)
    decreases |head|
  {
    if head == "" {
      assert head + tail == tail;
    } else {
      var s := head + tail;
      assert s[0..] == s;
      assert s[1..] == head[1..] + tail;
      assert forall i :: 0 <= i < |head[1..]| ==> (head[1..] + tail)[i..] == s[i + 1..];
      PassOver(head[1..], tail, from, to);
    }
  }

  lemma AtFront(tail: string, from: string, to: string)
    requires from != ""
    ensures ReplaceAll(from + tail, from, to) == to + ReplaceAll(tail, from, to)
  {
    assert (from + tail)[|from|..] == tail;
  }

  lemma {:induction false} LengthTrend(s: string, from: string, to: string)
    requires from != ""
    ensures |to| >= |from| ==> |ReplaceAll(s, from, to)| >= |s|
    ensures |to| <= |from| ==> |ReplaceAll(s, from, to)| <= |s|
    decreases |s|
  {
    if s == "" {
    } else if from <= s {
      LengthTrend(s[|from|..], from, to);
    } else {
      LengthTrend(s[1..], from, to);
    }
  }

  /** Replacing by something else leaves a string alone exactly when there is nothing to replace. */
  lemma {:induction false} UnchangedExact(s: string, from: string, to: string)
    requires from != "" && from != to
    ensures ReplaceAll(s, from, to) == s <==> Absent(s, from)
    decreases |s|
  {
    if s == "" {
      assert Absent(s, from);
    } else if from <= s {
      var rest := s[|from|..];
      assert from <= s[0..];
      LengthTrend(rest, from, to);
      if |to| == |from| {
        assert (to + ReplaceAll(rest, from, to))[..|to|] == to && s[..|from|] == from;
      }
    } else {
      UnchangedExact(s[1..], from, to);
      assert s[0..] == s;
      assert forall i :: 0 <= i <= |s[1..]| ==> s[1..][i..] == s[i + 1..];
      if Absent(s[1..], from) {
        forall i | 0 <= i <= |s| ensures !(from <= s[i..]) {
          if i > 0 {
            assert !(from <= s[1..][i - 1..]);
          }
        }
      }
      assert ([s[0]] + ReplaceAll(s[1..], from, to))[1..] == ReplaceAll(s[1..], from, to);
      assert s == [s[0]] + s[1..];
    }
  }

  /** Without the separator in `from`, a path is replaced part by part. */
  lemma {:induction false} SplitAtSlash(head: string, tail: string, from: string, to: string)
    requires from != "" && '/' !in from
    ensures ReplaceAll(head + "/" + tail, from, to) == ReplaceAll(head, from, to) + "/" + ReplaceAll(tail, from, to)
    decreases |head|
  {
    hide ReplaceAll;
    var s := head + "/" + tail;
    Unfold(s, from, to);
    Unfold(head, from, to);
    if head == "" {
      assert from[0] in from && s[0] == '/';
      assert s[1..] == tail;
    } else {
      OccursBefore(head, tail, from);
      if from <= head {
        assert s[|from|..] == head[|from|..] + "/" + tail;
        SplitAtSlash(head[|from|..], tail, from, to);
      } else {
        assert s[1..] == head[1..] + "/" + tail;
        SplitAtSlash(head[1..], tail, from, to);
      }
    }
  }

  lemma Unfold(s: string, from: string, to: string)
    requires from != ""
    ensures ReplaceAll(s, from, to)
            == if s == "" then "" else if from <= s then to + ReplaceAll(s[|from|..], from, to)
                else [s[0]] + ReplaceAll(s[1..], from, to)
  {
  }

  lemma OccursBefore(head: string, tail: string, from: string)
    requires '/' !in from
    ensures from <= head + "/" + tail <==> from <= head
  {
    var s := head + "/" + tail;
    assert s[|head|] == '/';
    if from <= s {
      forall i | 0 <= i < |from| ensures s[i] != '/' {
        assert from[i] in from && s[i] == from[i];
      }
      assert from == s[..|from|] == head[..|from|];
    }
  }

  // ----- renaming forth and back has no cycles -----

  function ForthAndBack(s: string, from: string, to: string): string
    requires from != "" && to != ""
  {
    ReplaceAll(ReplaceAll(s, from, to), to, from)
  }

  /** t has an occurrence of `from` where s, alike so far, has none. */
  predicate Ahead(s: string, t: string, from: string)
    requires from != ""
    decreases |s|
  {
    if from <= s then from <= t && Ahead(s[|from|..], t[|from|..], from)
    else from <= t || (s != "" && t != "" && s[0] == t[0] && Ahead(s[1..], t[1..], from))
  }

  lemma {:induction false} AheadIrreflexive(s: string, from: string)
    requires from != ""
    ensures !Ahead(s, s, from)
    decreases |s|
  {
    if from <= s {
      AheadIrreflexive(s[|from|..], from);
    } else if s != "" {
      AheadIrreflexive(s[1..], from);
    }
  }

  lemma {:induction false} AheadTrans(s: string, t: string, u: string, from: string)
    requires from != "" && Ahead(s, t, from) && Ahead(t, u, from)
    ensures Ahead(s, u, from)
    decreases |s|
  {
    if from <= s {
      AheadTrans(s[|from|..], t[|from|..], u[|from|..], from);
    } else if !(from <= t) && !(from <= u) {
      AheadTrans(s[1..], t[1..], u[1..], from);
    }
  }

  /** Renaming forth and back either restores a path or moves it ahead. */
  lemma {:induction false} RestoredOrAhead(s: string, from: string, to: string)
    requires from != "" && to != ""
    ensures ForthAndBack(s, from, to) == s || Ahead(s, ForthAndBack(s, from, to), from)
    decreases |s|
  {
    if s != "" {
      var out := ReplaceAll(s, from, to);
      if from <= s {
        var tail := s[|from|..];
        RestoredOrAhead(tail, from, to);
        AtFront(ReplaceAll(tail, from, to), to, from);
        var back := ForthAndBack(s, from, to);
        assert back == from + ForthAndBack(tail, from, to);
        assert back[|from|..] == ForthAndBack(tail, from, to) && s == from + tail;
      } else if to <= out {
        AtFront(out[|to|..], to, from);
        assert out == to + out[|to|..];
        assert from <= ForthAndBack(s, from, to);
      } else {
        RestoredOrAhead(s[1..], from, to);
        assert out == [s[0]] + ReplaceAll(s[1..], from, to);
        var back := ForthAndBack(s, from, to);
        assert back == [s[0]] + ForthAndBack(s[1..], from, to);
        assert s == [s[0]] + s[1..];
      }
    }
  }

  /** In a nonempty finite set some path is ahead of no other. */
  lemma {:induction false} Hindmost(paths: set<string>, from: string) returns (m: string)
    requires from != "" && paths != {}
    ensures m in paths && forall q :: q in paths ==> !Ahead(q, m, from)
  {
    hide Ahead;
    var x :| x in paths;
    var rest := paths - {x};
    AheadIrreflexive(x, from);
    assert paths == rest + {x};
    if rest == {} {
      m := x;
    } else {
      var n := Hindmost(rest, from);
      AheadIrreflexive(n, from);
      if Ahead(x, n, from) {
        m := x;
        forall q | q in rest ensures !Ahead(q, x, from) {
          if Ahead(q, x, from) {
            AheadTrans(q, x, n, from);
          }
        }
      } else {
        m := n;
      }
    }
  }

  ghost predicate ComesFrom(paths: set<string>, r: string, from: string, to: string)
    requires from != "" && to != ""
  {
    exists q :: q in paths && ForthAndBack(q, from, to) == r
  }

  /** If every path of a finite set is some path of it renamed forth and back, every path is restored. */
  lemma NoCycles(paths: set<string>, from: string, to: string)
    requires from != "" && to != ""
    requires forall r :: r in paths ==> ComesFrom(paths, r, from, to)
    ensures forall r :: r in paths ==> ForthAndBack(r, from, to) == r
  {
    hide ForthAndBack, Ahead, ComesFrom;
    if NotRestored(paths, from, to) != {} {
      var m := Hindmost(NotRestored(paths, from, to), from);
      var q := Before(paths, m, from, to);
    }
    assert forall r :: r in paths && ForthAndBack(r, from, to) != r ==> r in NotRestored(paths, from, to);
  }

  function NotRestored(paths: set<string>, from: string, to: string): set<string>
    requires from != "" && to != ""
  {
    set r | r in paths && ForthAndBack(r, from, to) != r
  }

  /** A path that is not restored comes from another one, behind it, that is not restored either. */
  lemma Before(paths: set<string>, r: string, from: string, to: string) returns (q: string)
    requires from != "" && to != ""
    requires r in paths && ForthAndBack(r, from, to) != r
    requires ComesFrom(paths, r, from, to)
    ensures q in NotRestored(paths, from, to) && Ahead(q, r, from)
  {
    hide ForthAndBack, Ahead;
    q :| q in paths && ForthAndBack(q, from, to) == r;
    RestoredOrAhead(q, from, to);
  }
}
