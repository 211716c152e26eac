/** Shared vocabulary: row identifiers, optional values and the two string
    operations the services apply to user input (Python's `str.strip()` and
    `str.lower()`). */
module Common {

  /** Row identifiers. The application draws them from uuid4; the model draws
      them from a counter kept by each store, which gives the same guarantee
      that a new row never reuses an identifier. */
  type Id = nat

  /** A nullable column or a lookup that may find nothing. */
  datatype Option<T> = None | Some(value: T)

  /** Python's `str.isspace()` set: the characters `str.strip()` removes. */
  predicate IsSpace(c: char)
  {
    c == ' ' || ('\t' <= c <= '\r') || ('\U{1C}' <= c <= '\U{1F}')
    || c == '\U{85}' || c == '\U{A0}' || c == '\U{1680}'
    || ('\U{2000}' <= c <= '\U{200A}') || c == '\U{2028}' || c == '\U{2029}'
    || c == '\U{202F}' || c == '\U{205F}' || c == '\U{3000}'
  }

  predicate AllSpace(s: string)
  {
    forall i :: 0 <= i < |s| ==> IsSpace(s[i])
  }

  /** Drops trailing whitespace: the result is a prefix of `s` and everything
      dropped was whitespace. */
  function TrimRight(s: string): (r: string)
    ensures |r| <= |s| && r == s[..|r|]
    ensures AllSpace(s[|r|..])
    ensures r == [] || !IsSpace(r[|r| - 1])
  {
    if s != [] && IsSpace(s[|s| - 1]) then
      var p := s[..|s| - 1];
      var r := TrimRight(p);
      assert s[|r|..] == p[|r|..] + [s[|s| - 1]];
      assert s[..|r|] == p[..|r|];
      r
    else s
  }

  /** Python's `str.strip()`: drops leading whitespace, then trailing
      whitespace. The result has no whitespace at either end and is empty
      exactly when the input is all whitespace. */
  function Strip(s: string): (r: string)
    ensures |r| <= |s|
    ensures r == [] || (!IsSpace(r[0]) && !IsSpace(r[|r| - 1]))
    ensures r == [] <==> AllSpace(s)
  {
    if s != [] && IsSpace(s[0]) then
      assert AllSpace(s) <==> AllSpace(s[1..]) by {
        assert forall k :: 1 <= k < |s| ==> s[k] == s[1..][k - 1];
      }
      Strip(s[1..])
    else
      var r := TrimRight(s);
      assert r != [] ==> r[0] == s[0];
      assert r == [] ==> s[|r|..] == s;
      r
  }

  /** The stripped text is a contiguous piece of the input, and what was
      cut off before and after it is whitespace only. */
  lemma {:induction false} StripIsSlice(s: string) returns (i: nat)
    ensures i + |Strip(s)| <= |s| && Strip(s) == s[i..i + |Strip(s)|]
    ensures AllSpace(s[..i]) && AllSpace(s[i + |Strip(s)|..])
  {
    if s != [] && IsSpace(s[0]) {
      var j := StripIsSlice(s[1..]);
      assert Strip(s) == Strip(s[1..]);
      SliceShifted(s, j, |Strip(s)|);
      i := j + 1;
    } else {
      i := 0;
      assert Strip(s) == TrimRight(s);
    }
  }

  /** The step of `StripIsSlice` past one leading whitespace character:
      the piece of `s[1..]` at `j` is the piece of `s` at `j + 1`, and the
      whitespace around it stays whitespace. */
  lemma SliceShifted(s: string, j: nat, n: nat)
    requires s != [] && IsSpace(s[0]) && j + n <= |s| - 1
    requires AllSpace(s[1..][..j]) && AllSpace(s[1..][j + n..])
    ensures s[1..][j..j + n] == s[j + 1..j + 1 + n]
    ensures AllSpace(s[..j + 1]) && AllSpace(s[j + 1 + n..])
  {
    forall k | 1 <= k < j + 1
      ensures IsSpace(s[k])
    {
      assert s[k] == s[1..][..j][k - 1];
    }
    forall k | j + 1 + n <= k < |s|
      ensures IsSpace(s[k])
    {
      assert s[k] == s[1..][j + n..][k - 1 - j - n];
    }
  }

  /** Stripping twice is stripping once. */
  lemma StripIdempotent(s: string)
    ensures Strip(Strip(s)) == Strip(s)
  {
    var t := Strip(s);
    if t != [] {
      assert TrimRight(t) == t;
    }
  }

  /** ASCII case folding of one character (the model's `str.lower()`). */
  function LowerChar(c: char): char
  {
    if 'A' <= c <= 'Z' then (c as int + 32) as char else c
  }

  /** Python's `str.lower()`, restricted to ASCII letters. */
  function Lower(s: string): string
  {
    seq(|s|, i requires 0 <= i < |s| => LowerChar(s[i]))
  }

  /** Lower-casing is idempotent, so a stored e-mail that was lower-cased on
      the way in matches itself under a case-insensitive lookup, and the
      result holds no upper-case ASCII letter. */
  lemma LowerIdempotent(s: string)
    ensures Lower(Lower(s)) == Lower(s)
    ensures forall i :: 0 <= i < |s| ==> !('A' <= Lower(s)[i] <= 'Z')
  {
  }

  /** The position of the first element satisfying `p`, if any: what a
      `scalar_one_or_none()` lookup over a table returns when the column it
      filters on is unique. */
  function FirstIndex<T>(s: seq<T>, p: T -> bool): (r: Option<nat>)
    ensures r.Some? ==> r.value < |s| && p(s[r.value])
    ensures r.Some? ==> forall j :: 0 <= j < r.value ==> !p(s[j])
    ensures r.None? <==> forall j :: 0 <= j < |s| ==> !p(s[j])
  {
    if s == [] then None
    else if p(s[0]) then Some(0)
    else match FirstIndex(s[1..], p)
      case None => None
      case Some(k) => Some(k + 1)
  }

  /** Stripping a lower-cased string leaves it lower-cased: what
      `email.lower().strip()` stores is its own lower-case form. */
  lemma StripKeepsLower(s: string)
    ensures Lower(Strip(Lower(s))) == Strip(Lower(s))
  {
    var l := Lower(s);
    var e := Strip(l);
    assert forall k :: 0 <= k < |l| ==> LowerChar(l[k]) == l[k];
    var i := StripIsSlice(l);
    SliceKeepsLower(l, i, |e|);
  }

  lemma SliceKeepsLower(l: string, i: nat, n: nat)
    requires i + n <= |l|
    requires forall k :: 0 <= k < |l| ==> LowerChar(l[k]) == l[k]
    ensures Lower(l[i..i + n]) == l[i..i + n]
  {
    var e := l[i..i + n];
    assert forall k :: 0 <= k < n ==> e[k] == l[i + k];
  }

  /** `f` applied to every element, or None as soon as one application
      fails: how a list field is validated item by item. */
  function MapAll<A, B>(xs: seq<A>, f: A -> Option<B>): (r: Option<seq<B>>)
    ensures r.Some? <==> forall i :: 0 <= i < |xs| ==> f(xs[i]).Some?
    ensures r.Some? ==> (|r.value| == |xs|
      && forall i :: 0 <= i < |xs| ==> f(xs[i]) == Some(r.value[i]))
  {
    if xs == [] then Some([])
    else
      var head := f(xs[0]);
      var tail := MapAll(xs[1..], f);
      assert forall i :: 1 <= i < |xs| ==> xs[i] == xs[1..][i - 1];
      if head.Some? && tail.Some? then Some([head.value] + tail.value) else None
  }

  /** `OFFSET offset LIMIT limit`: the rows from position `offset`, at most
      `limit` of them. */
  function Window<T>(s: seq<T>, offset: nat, limit: nat): (r: seq<T>)
    ensures |r| <= limit
    ensures forall k :: 0 <= k < |r| ==> offset + k < |s| && r[k] == s[offset + k]
    ensures |r| == if offset >= |s| then 0 else Min(limit, |s| - offset)
  {
    if offset >= |s| then [] else s[offset..offset + Min(limit, |s| - offset)]
  }

  function Min(a: int, b: int): int
  {
    if a <= b then a else b
  }

  function Max(a: int, b: int): int
  {
    if a >= b then a else b
  }
}
