/** The JavaScript string operations the core relies on (`trim`, `split`,
    `includes`, `replace`, `split(/\s+/)`, `toLowerCase`, `toString`),
    each characterised by what it returns rather than by how it is computed. */
module Text {
  import opened Wrappers

  /** The code points ECMAScript counts as white space or line terminators:
      what `String.prototype.trim` removes and what the regular expression `\s` matches. */
  predicate IsSpace(c: char) {
    c == '\t' || c == '\n' || c == '\U{000B}' || c == '\U{000C}' || c == '\r' || c == ' '
    || c == '\U{00A0}' || c == '\U{1680}' || ('\U{2000}' <= c <= '\U{200A}')
    || c == '\U{2028}' || c == '\U{2029}' || c == '\U{202F}' || c == '\U{205F}'
    || c == '\U{3000}' || c == '\U{FEFF}'
  }

  /** No white space at either end. */
  predicate IsTrimmed(s: string) {
    s == [] || (!IsSpace(s[0]) && !IsSpace(s[|s| - 1]))
  }

  /** `s` is `r` with `lead` white-space characters before it and only white space after it. */
  predicate SpaceMargins(s: string, lead: int, r: string) {
    0 <= lead && lead + |r| <= |s| && r == s[lead..lead + |r|]
    && (forall k :: 0 <= k < lead ==> IsSpace(s[k]))
    && (forall k :: lead + |r| <= k < |s| ==> IsSpace(s[k]))
  }

  /** `s.trimStart()`. */
  function TrimStart(s: string): (r: string)
    ensures |r| <= |s| && r == s[|s| - |r|..]
    ensures r == [] || !IsSpace(r[0])
    ensures forall k :: 0 <= k < |s| - |r| ==> IsSpace(s[k])
  {
    if s != [] && IsSpace(s[0]) then TrimStart(s[1..]) else s
  }

  /** `s.trimEnd()`. */
  function TrimEnd(s: string): (r: string)
    ensures |r| <= |s| && r == s[..|r|]
    ensures r == [] || !IsSpace(r[|r| - 1])
    ensures forall k :: |r| <= k < |s| ==> IsSpace(s[k])
  {
    if s != [] && IsSpace(s[|s| - 1]) then TrimEnd(s[..|s| - 1]) else s
  }

  /** `s.trim()`: the slice of `s` left once the white space at both ends is cut away. */
  function Trim(s: string): (r: string)
    ensures IsTrimmed(r)
  {
    TrimEnd(TrimStart(s))
  }

  /** What `trim` keeps is a slice of the string with only white space around it. */
  lemma TrimIsSlice(s: string)
    ensures exists lead :: SpaceMargins(s, lead, Trim(s))
  {
    var t := TrimStart(s);
    var r := TrimEnd(t);
    var lead := |s| - |t|;
    assert r == s[lead..lead + |r|];
    forall k | lead + |r| <= k < |s| ensures IsSpace(s[k]) {
      assert s[k] == t[k - lead];
    }
    assert r == Trim(s);
    assert SpaceMargins(s, lead, r);
  }

  /** A string trims to the empty string exactly when it is all white space. */
  lemma TrimEmptyIffBlank(s: string)
    ensures Trim(s) == "" <==> forall k :: 0 <= k < |s| ==> IsSpace(s[k])
  {
    TrimIsSlice(s);
    var lead :| SpaceMargins(s, lead, Trim(s));
    if Trim(s) != "" {
      assert s[lead] == Trim(s)[0];
    }
  }

  /** `parts.join(sep)`. */
  function Join(parts: seq<string>, sep: char): string
  {
    if parts == [] then ""
    else if |parts| == 1 then parts[0]
    else parts[0] + [sep] + Join(parts[1..], sep)
  }

  /** `s.split(sep)` for a one-character separator: the pieces between the
      separators, empty pieces included. */
  function Split(s: string, sep: char): (r: seq<string>)
    ensures |r| >= 1
    ensures forall i :: 0 <= i < |r| ==> sep !in r[i]
  {
    if s == [] then [""]
    else
      var rest := Split(s[1..], sep);
      if s[0] == sep then [""] + rest
      else [[s[0]] + rest[0]] + rest[1..]
  }

  /** Joining the pieces of a split with the same separator gives back the string. */
  lemma {:induction false} JoinSplit(s: string, sep: char)
    ensures Join(Split(s, sep), sep) == s
  {
    if s != [] {
      JoinSplit(s[1..], sep);
      var rest := Split(s[1..], sep);
      if s[0] == sep {
        assert ([""] + rest)[1..] == rest;
      } else {
        var r := [[s[0]] + rest[0]] + rest[1..];
        if |rest| > 1 {
          assert r[1..] == rest[1..];
        }
      }
    }
  }

  /** Splitting a string that starts with a separator-free piece `p`. */
  lemma {:induction false} SplitAfterPiece(p: string, t: string, sep: char)
    requires sep !in p
    ensures Split(p + t, sep) == [p + Split(t, sep)[0]] + Split(t, sep)[1..]
  {
    if p != [] {
      SplitAfterPiece(p[1..], t, sep);
      assert (p + t)[1..] == p[1..] + t;
      assert [p[0]] + (p[1..] + Split(t, sep)[0]) == p + Split(t, sep)[0];
    } else {
      assert p + t == t;
      assert p + Split(t, sep)[0] == Split(t, sep)[0];
      assert Split(t, sep) == [Split(t, sep)[0]] + Split(t, sep)[1..];
    }
  }

  /** Splitting a join of separator-free pieces gives back the pieces. */
  lemma {:induction false} SplitJoin(parts: seq<string>, sep: char)
    requires |parts| >= 1
    requires forall i :: 0 <= i < |parts| ==> sep !in parts[i]
    ensures Split(Join(parts, sep), sep) == parts
  {
    if |parts| == 1 {
      SplitAfterPiece(parts[0], "", sep);
      assert parts[0] + "" == parts[0];
    } else {
      var tail := Join(parts[1..], sep);
      SplitJoin(parts[1..], sep);
      SplitAfterPiece(parts[0], [sep] + tail, sep);
      assert parts[0] + [sep] + tail == parts[0] + ([sep] + tail);
      assert ([sep] + tail)[1..] == tail;
      assert Split([sep] + tail, sep) == [""] + parts[1..];
      assert parts[0] + "" == parts[0];
      assert parts == [parts[0]] + parts[1..];
    }
  }

  /** `pat` occurs in `s` starting at position `i`. */
  predicate OccursAt(s: string, pat: string, i: int) {
    0 <= i && i + |pat| <= |s| && s[i..i + |pat|] == pat
  }

  /** `s.indexOf(pat)`: the first position where `pat` occurs, if any. */
  function IndexOf(s: string, pat: string): (r: Option<nat>)
    ensures r.Some? ==> OccursAt(s, pat, r.value)
    ensures r.Some? ==> forall i :: 0 <= i < r.value ==> !OccursAt(s, pat, i)
    ensures r.None? ==> forall i :: !OccursAt(s, pat, i)
  {
    if |pat| <= |s| && s[..|pat|] == pat then Some(0)
    else if s == [] then None
    else
      var r := IndexOf(s[1..], pat);
      OccursShift(s, pat);
      assert forall i :: OccursAt(s, pat, i) && i != 0 ==> OccursAt(s[1..], pat, i - 1);
      match r
      case Some(i) => Some(i + 1)
      case None => None
  }

  /** An occurrence in the tail of `s` is an occurrence in `s`, one position later. */
  lemma OccursShift(s: string, pat: string)
    requires s != []
    ensures forall i :: 0 <= i ==> (OccursAt(s[1..], pat, i) <==> OccursAt(s, pat, i + 1))
  {
    forall i | 0 <= i
      ensures OccursAt(s[1..], pat, i) <==> OccursAt(s, pat, i + 1)
    {
      if i + 1 + |pat| <= |s| {
        assert s[1..][i..i + |pat|] == s[i + 1..i + 1 + |pat|];
      }
    }
  }

  /** `pat` occurs at `i` and at no earlier position. */
  predicate FirstOccurrence(s: string, pat: string, i: int) {
    OccursAt(s, pat, i) && forall j :: 0 <= j < i ==> !OccursAt(s, pat, j)
  }

  /** `s.includes(pat)`. */
  predicate Contains(s: string, pat: string) {
    IndexOf(s, pat).Some?
  }

  /** `s.replace(pat, rep)` with a string pattern: only the FIRST occurrence is
      replaced, wherever in `s` it is. */
  function ReplaceFirst(s: string, pat: string, rep: string): (r: string)
    ensures !Contains(s, pat) ==> r == s
    ensures pat <= s ==> r == rep + s[|pat|..]
    ensures Contains(s, pat) ==> |r| == |s| - |pat| + |rep|
    ensures Contains(s, pat) ==> exists i :: FirstOccurrence(s, pat, i) && r == s[..i] + rep + s[i + |pat|..]
  {
    match IndexOf(s, pat)
    case Some(i) =>
      assert pat <= s ==> OccursAt(s, pat, 0);
      assert FirstOccurrence(s, pat, i);
      s[..i] + rep + s[i + |pat|..]
    case None =>
      assert pat <= s ==> OccursAt(s, pat, 0);
      s
  }

  /** `s.replace(/^p/, "")`: `p` is removed only where it begins the string. */
  function DropPrefix(s: string, p: string): (r: string)
    ensures p <= s ==> s == p + r
    ensures !(p <= s) ==> r == s
  {
    if p <= s then s[|p|..] else s
  }

  /** No character of `s` is white space. */
  predicate HasNoSpace(s: string) {
    forall k :: 0 <= k < |s| ==> !IsSpace(s[k])
  }

  /** The leading run of non-white-space characters. */
  function FirstToken(s: string): (r: string)
    ensures r <= s
    ensures forall k :: 0 <= k < |r| ==> !IsSpace(r[k])
    ensures |r| == |s| || IsSpace(s[|r|])
  {
    if s == [] || IsSpace(s[0]) then "" else [s[0]] + FirstToken(s[1..])
  }

  /** What follows the first token once the white space after it is skipped. */
  function AfterFirstToken(s: string): string
  {
    TrimStart(s[|FirstToken(s)|..])
  }

  /** Element 0 of `t.split(/\s+/)` for a trimmed `t` (the empty string when `t` is empty). */
  function Field0(t: string): (r: string)
    ensures r <= t && HasNoSpace(r)
    ensures |r| == |t| || IsSpace(t[|r|])
  {
    FirstToken(t)
  }

  /** Element 1 of `t.split(/\s+/)` for a trimmed `t`; `None` is JavaScript's `undefined`. */
  function Field1(t: string): (r: Option<string>)
    ensures r.Some? ==> r.value != "" && HasNoSpace(r.value)
    ensures IsTrimmed(t) ==> (r.Some? <==> !HasNoSpace(t))
    ensures r.Some? ==> r.value == FirstToken(AfterFirstToken(t))
  {
    var rest := AfterFirstToken(t);
    SecondFieldPresent(t);
    if rest == [] then None else Some(FirstToken(rest))
  }

  /** A non-empty run of white space. */
  predicate IsGap(gap: string) {
    gap != [] && forall k :: 0 <= k < |gap| ==> IsSpace(gap[k])
  }

  /** The layout of a line with two fields: the first field, a non-empty run
      of white space, then the second field. */
  lemma FieldsLayout(t: string)
    requires Field1(t).Some?
    ensures exists gap :: IsGap(gap) && Field0(t) + gap + Field1(t).value <= t
  {
    var f0 := Field0(t);
    var after := t[|f0|..];
    var rest := TrimStart(after);
    assert rest == AfterFirstToken(t) != [];
    assert |f0| < |t| && IsSpace(t[|f0|]);
    assert |rest| < |after|;
    forall k | |f0| <= k < |t| - |rest|
      ensures IsSpace(t[k])
    {
      assert t[k] == after[k - |f0|];
    }
    SuffixOfDrop(t, |f0|, rest);
    GapBetween(t, f0, rest, Field1(t).value);
  }

  /** A suffix of a suffix is a suffix. */
  lemma SuffixOfDrop(t: string, n: nat, r: string)
    requires n <= |t| && |r| <= |t| - n && r == t[n..][|t| - n - |r|..]
    ensures r == t[|t| - |r|..]
  {
  }

  /** A prefix, then white space, then a suffix of the string: the prefix,
      a gap and any prefix of the suffix begin the string in that order. */
  lemma GapBetween(t: string, f0: string, rest: string, v: string)
    requires f0 <= t && |f0| + |rest| < |t| && rest == t[|t| - |rest|..]
    requires forall k :: |f0| <= k < |t| - |rest| ==> IsSpace(t[k])
    requires v <= rest
    ensures exists gap :: IsGap(gap) && f0 + gap + v <= t
  {
    var gap := t[|f0|..|t| - |rest|];
    assert IsGap(gap);
    assert f0 + gap + v == t[..|f0| + |gap| + |v|];
  }

  /** In a trimmed string, something follows the first field exactly when
      the string holds white space. */
  lemma SecondFieldPresent(t: string)
    ensures IsTrimmed(t) ==> (AfterFirstToken(t) != [] <==> !HasNoSpace(t))
  {
    var f := |FirstToken(t)|;
    if IsTrimmed(t) && !HasNoSpace(t) {
      var j :| 0 <= j < |t| && IsSpace(t[j]);
      assert f <= j;
      var tail := t[f..];
      assert tail[|tail| - 1] == t[|t| - 1];
    }
  }

  /** How a template literal renders a possibly `undefined` string. */
  function Rendered(f: Option<string>): string
  {
    match f
    case Some(v) => v
    case None => "undefined"
  }

  /** Rendering keeps a field free of white space; `undefined` has none. */
  lemma RenderedHasNoSpace(f: Option<string>)
    requires f.Some? ==> HasNoSpace(f.value)
    ensures HasNoSpace(Rendered(f))
  {
    if f.None? {
      var u := "undefined";
      assert forall k :: 0 <= k < |u| ==> 'a' <= u[k] <= 'z';
    }
  }

  /** The ASCII case mapping of `toLowerCase`, which is all a case-insensitive
      match of an all-ASCII pattern can observe. */
  function LowerChar(c: char): char
  {
    if 'A' <= c <= 'Z' then (c as int + 32) as char else c
  }

  function Lower(s: string): (r: string)
    ensures |r| == |s|
    ensures forall i :: 0 <= i < |s| ==> r[i] == LowerChar(s[i])
  {
    if s == [] then [] else [LowerChar(s[0])] + Lower(s[1..])
  }

  predicate IsDigit(c: char) {
    '0' <= c <= '9'
  }

  predicate AllDigits(s: string) {
    forall k :: 0 <= k < |s| ==> IsDigit(s[k])
  }

  function DigitChar(d: nat): (c: char)
    requires d < 10
    ensures IsDigit(c) && c as int - '0' as int == d
  {
    ('0' as int + d) as char
  }

  /** The number a string of decimal digits denotes. */
  function DigitsValue(s: string): nat
    requires AllDigits(s)
  {
    if s == [] then 0
    else DigitsValue(s[..|s| - 1]) * 10 + (s[|s| - 1] as int - '0' as int)
  }

  /** `n.toString()` for a non-negative integer: its decimal digits, without leading zeros. */
  function NatToString(n: nat): (r: string)
    ensures r != [] && AllDigits(r)
    ensures DigitsValue(r) == n
    ensures r[0] == '0' ==> r == "0"
  {
    if n < 10 then [DigitChar(n)]
    else
      var r := NatToString(n / 10) + [DigitChar(n % 10)];
      assert r[..|r| - 1] == NatToString(n / 10);
      r
  }

  /** `i.toString()` for any integer. */
  function IntToString(i: int): (r: string)
    ensures i >= 0 ==> r == NatToString(i)
    ensures i < 0 ==> r == "-" + NatToString(-i)
  {
    if i < 0 then "-" + NatToString(-i) else NatToString(i)
  }

  /** A leading zero does not change the value of a digit string. */
  lemma {:induction false} LeadingZero(s: string)
    requires AllDigits(s)
    ensures AllDigits("0" + s) && DigitsValue("0" + s) == DigitsValue(s)
  {
    if s != [] {
      LeadingZero(s[..|s| - 1]);
      assert ("0" + s)[..|"0" + s| - 1] == "0" + s[..|s| - 1];
    }
  }
}
