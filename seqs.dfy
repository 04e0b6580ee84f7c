/** List facts shared by the branch pipeline and the pull-request filter:
    order-preserving subsequences, duplicate freedom, and the first-seen
    de-duplication that `Array.from(new Set(list))` performs. */
module Seqs {
  import opened Wrappers

  /** `sub` is `s` with some elements left out and the others kept in order. */
  predicate IsSubsequence<T(==)>(sub: seq<T>, s: seq<T>)
    decreases |s|
  {
    sub == []
    || (s != [] && ((sub[0] == s[0] && IsSubsequence(sub[1..], s[1..])) || IsSubsequence(sub, s[1..])))
  }

  predicate NoDuplicates<T(==)>(s: seq<T>) {
    forall i, j :: 0 <= i < j < |s| ==> s[i] != s[j]
  }

  /** `Array.from(new Set(s))`: a set remembers insertion order and ignores an
      element it already holds, so each distinct element appears once, where it
      was first seen. */
  function Dedup<T(==,!new)>(s: seq<T>): (r: seq<T>)
    ensures NoDuplicates(r)
    ensures forall x :: x in r <==> x in s
  {
    if s == [] then []
    else
      var d := Dedup(s[..|s| - 1]);
      assert forall x :: x in s <==> x in s[..|s| - 1] || x == s[|s| - 1] by {
        assert s == s[..|s| - 1] + [s[|s| - 1]];
      }
      if s[|s| - 1] in d then d else d + [s[|s| - 1]]
  }

  /** The elements of `s` that do not occur in `excluded`, in order. */
  function Without<T(==,!new)>(s: seq<T>, excluded: seq<T>): (r: seq<T>)
    ensures forall x :: x in r <==> x in s && x !in excluded
  {
    if s == [] then []
    else
      var w := Without(s[..|s| - 1], excluded);
      assert forall x :: x in s <==> x in s[..|s| - 1] || x == s[|s| - 1] by {
        assert s == s[..|s| - 1] + [s[|s| - 1]];
      }
      if s[|s| - 1] in excluded then w else w + [s[|s| - 1]]
  }

  /** Adding one element to a set adds it at the end, unless it is already there. */
  lemma DedupSnoc<T(!new)>(s: seq<T>, y: T)
    ensures Dedup(s + [y]) == if y in Dedup(s) then Dedup(s) else Dedup(s) + [y]
  {
    var sy := s + [y];
    assert sy[..|sy| - 1] == s && sy[|sy| - 1] == y;
  }

  lemma WithoutSnoc<T(!new)>(s: seq<T>, y: T, excluded: seq<T>)
    ensures Without(s + [y], excluded) == if y in excluded then Without(s, excluded) else Without(s, excluded) + [y]
  {
    var sy := s + [y];
    assert sy[..|sy| - 1] == s && sy[|sy| - 1] == y;
  }

  /** De-duplicating a concatenation keeps the de-duplicated first part in
      front, untouched, followed by the new elements of the second part in
      first-seen order. */
  lemma {:induction false} DedupAppend<T(!new)>(a: seq<T>, b: seq<T>)
    ensures Dedup(a + b) == Dedup(a) + Dedup(Without(b, a))
  {
    if b == [] {
      assert a + b == a;
    } else {
      var b', y := b[..|b| - 1], b[|b| - 1];
      DedupAppend(a, b');
      assert b == b' + [y];
      if y in a || y in b' {
        DedupAppendSeen(a, b', y);
      } else {
        DedupAppendNew(a, b', y);
      }
    }
  }

  lemma AppendAssociative<T>(a: seq<T>, b: seq<T>, c: seq<T>)
    ensures a + (b + c) == (a + b) + c
  {
  }

  /** One step of `DedupAppend`: an element already seen changes nothing. */
  lemma DedupAppendSeen<T(!new)>(a: seq<T>, b': seq<T>, y: T)
    requires y in a || y in b'
    requires Dedup(a + b') == Dedup(a) + Dedup(Without(b', a))
    ensures Dedup(a + (b' + [y])) == Dedup(a) + Dedup(Without(b' + [y], a))
  {
    var w := Without(b', a);
    calc {
      Dedup(a + (b' + [y]));
    == { AppendAssociative(a, b', [y]); }
      Dedup((a + b') + [y]);
    == { DedupSnoc(a + b', y); assert y in a + b'; }
      Dedup(a) + Dedup(w);
    == { WithoutSnoc(b', y, a); DedupSnoc(w, y); }
      Dedup(a) + Dedup(Without(b' + [y], a));
    }
  }

  /** One step of `DedupAppend`: a new element goes to the end of both sides. */
  lemma DedupAppendNew<T(!new)>(a: seq<T>, b': seq<T>, y: T)
    requires y !in a && y !in b'
    requires Dedup(a + b') == Dedup(a) + Dedup(Without(b', a))
    ensures Dedup(a + (b' + [y])) == Dedup(a) + Dedup(Without(b' + [y], a))
  {
    var w := Without(b', a);
    calc {
      Dedup(a + (b' + [y]));
    == { AppendAssociative(a, b', [y]); }
      Dedup((a + b') + [y]);
    == { DedupSnoc(a + b', y); assert y !in a + b'; }
      (Dedup(a) + Dedup(w)) + [y];
    == { AppendAssociative(Dedup(a), Dedup(w), [y]); }
      Dedup(a) + (Dedup(w) + [y]);
    == { assert y !in Dedup(w); DedupSnoc(w, y); }
      Dedup(a) + Dedup(w + [y]);
    == { WithoutSnoc(b', y, a); }
      Dedup(a) + Dedup(Without(b' + [y], a));
    }
  }

  lemma {:induction false} SubsequenceExtend<T>(x: seq<T>, y: seq<T>, e: T)
    requires IsSubsequence(x, y)
    ensures IsSubsequence(x, y + [e])
  {
    if x != [] {
      assert (y + [e])[1..] == y[1..] + [e];
      if x[0] == y[0] && IsSubsequence(x[1..], y[1..]) {
        SubsequenceExtend(x[1..], y[1..], e);
      } else {
        SubsequenceExtend(x, y[1..], e);
      }
    }
  }

  lemma {:induction false} SubsequenceAppendBoth<T>(x: seq<T>, y: seq<T>, e: T)
    requires IsSubsequence(x, y)
    ensures IsSubsequence(x + [e], y + [e])
  {
    if y == [] {
      assert x == [];
      assert IsSubsequence([e][1..], []);
    } else {
      assert (y + [e])[1..] == y[1..] + [e];
      if x == [] {
        SubsequenceAppendBoth(x, y[1..], e);
        assert x + [e] == [e];
      } else if x[0] == y[0] && IsSubsequence(x[1..], y[1..]) {
        SubsequenceAppendBoth(x[1..], y[1..], e);
        assert (x + [e])[1..] == x[1..] + [e];
      } else {
        SubsequenceAppendBoth(x, y[1..], e);
      }
    }
  }

  /** The de-duplicated list keeps the original order. */
  lemma {:induction false} DedupIsSubsequence<T(!new)>(s: seq<T>)
    ensures IsSubsequence(Dedup(s), s)
  {
    if s != [] {
      var init := s[..|s| - 1];
      DedupIsSubsequence(init);
      assert s == init + [s[|s| - 1]];
      if s[|s| - 1] in Dedup(init) {
        SubsequenceExtend(Dedup(init), init, s[|s| - 1]);
      } else {
        SubsequenceAppendBoth(Dedup(init), init, s[|s| - 1]);
      }
    }
  }

  /** `lines.map(f).filter(l => l !== "")`. */
  function NonEmptyImages(lines: seq<string>, f: string -> string): (r: seq<string>)
    ensures forall i :: 0 <= i < |r| ==> r[i] != ""
  {
    if lines == [] then []
    else
      var n := f(lines[0]);
      (if n == "" then [] else [n]) + NonEmptyImages(lines[1..], f)
  }

  /** The entries are exactly the non-empty images of the lines. */
  lemma {:induction false} NonEmptyImagesMembers(lines: seq<string>, f: string -> string)
    ensures forall x :: x in NonEmptyImages(lines, f) <==> x != "" && exists l :: l in lines && f(l) == x
  {
    if lines != [] {
      var n := f(lines[0]);
      NonEmptyImagesMembers(lines[1..], f);
      assert NonEmptyImages(lines, f) == (if n == "" then [] else [n]) + NonEmptyImages(lines[1..], f);
      forall x | x != "" && exists l :: l in lines && f(l) == x
        ensures x in NonEmptyImages(lines, f)
      {
        var l :| l in lines && f(l) == x;
        if l != lines[0] { assert l in lines[1..]; }
      }
    }
  }

  /** How many of the lines `f` maps to `x`. */
  function ImageCount(lines: seq<string>, f: string -> string, x: string): nat
  {
    if lines == [] then 0
    else (if f(lines[0]) == x then 1 else 0) + ImageCount(lines[1..], f, x)
  }

  /** Each non-empty image is kept once per line that yields it; the empty
      string is never kept. */
  lemma {:induction false} NonEmptyImagesCounts(lines: seq<string>, f: string -> string)
    ensures forall x :: multiset(NonEmptyImages(lines, f))[x] == if x == "" then 0 else ImageCount(lines, f, x)
  {
    if lines != [] {
      NonEmptyImagesCounts(lines[1..], f);
    }
  }

  /** The images keep the order of their lines: the result for two blocks of
      lines is the result for the first followed by the result for the second. */
  lemma {:induction false} NonEmptyImagesAppend(a: seq<string>, b: seq<string>, f: string -> string)
    ensures NonEmptyImages(a + b, f) == NonEmptyImages(a, f) + NonEmptyImages(b, f)
  {
    if a == [] {
      assert a + b == b;
    } else {
      assert (a + b)[0] == a[0] && (a + b)[1..] == a[1..] + b;
      NonEmptyImagesAppend(a[1..], b, f);
      var n := f(a[0]);
      AppendAssociative(if n == "" then [] else [n], NonEmptyImages(a[1..], f), NonEmptyImages(b, f));
    }
  }

  /** `lines.map(g).filter(Boolean)` for a `g` that yields a name or nothing:
      the present, non-empty names, in line order. */
  function PresentValues(lines: seq<string>, g: string -> Option<string>): (r: seq<string>)
    ensures |r| <= |lines|
    ensures forall i :: 0 <= i < |r| ==> r[i] != ""
  {
    if lines == [] then []
    else
      var v := g(lines[0]);
      (if v.Some? && v.value != "" then [v.value] else []) + PresentValues(lines[1..], g)
  }

  /** A name is kept exactly when it is non-empty and some line yields it. */
  lemma {:induction false} PresentValuesMembers(lines: seq<string>, g: string -> Option<string>)
    ensures forall x :: x in PresentValues(lines, g) <==> x != "" && exists l :: l in lines && g(l) == Some(x)
  {
    if lines != [] {
      var v := g(lines[0]);
      PresentValuesMembers(lines[1..], g);
      assert PresentValues(lines, g) == (if v.Some? && v.value != "" then [v.value] else []) + PresentValues(lines[1..], g);
      forall x | x != "" && exists l :: l in lines && g(l) == Some(x)
        ensures x in PresentValues(lines, g)
      {
        var l :| l in lines && g(l) == Some(x);
        if l != lines[0] { assert l in lines[1..]; }
      }
    }
  }
}
