/** String operations the analyzer relies on: Python's `sub in s`,
    ASCII `str.lower()` and `str.strip()`, and Python's ordering of strings
    (code point by code point), which pandas uses to sort group keys. */
module Text {
  import Ordering

  /** Python's `sub in s`: `sub` occurs as a contiguous block of `s`. */
  predicate Contains(s: string, sub: string)
    decreases |s|
  {
    |sub| <= |s| && (s[..|sub|] == sub || Contains(s[1..], sub))
  }

  /** `sub` occurs in `s` starting at index `i`. */
  ghost predicate OccursAt(s: string, sub: string, i: int) {
    0 <= i && i + |sub| <= |s| && s[i..i + |sub|] == sub
  }

  /** `Contains` finds an occurrence exactly when there is one. */
  lemma {:induction false} ContainsIffOccurs(s: string, sub: string)
    ensures Contains(s, sub) <==> exists i :: OccursAt(s, sub, i)
    decreases |s|
  {
    if |sub| <= |s| {
      if s[..|sub|] == sub {
        assert OccursAt(s, sub, 0);
      } else {
        ContainsIffOccurs(s[1..], sub);
        if Contains(s[1..], sub) {
          var i :| OccursAt(s[1..], sub, i);
          assert s[1..][i..i + |sub|] == s[i + 1..i + 1 + |sub|];
          assert OccursAt(s, sub, i + 1);
        }
        if i :| OccursAt(s, sub, i) {
          assert i != 0;
          assert s[1..][i - 1..i - 1 + |sub|] == s[i..i + |sub|];
          assert OccursAt(s[1..], sub, i - 1);
        }
      }
    }
  }

  /** A string that has `sub` as a block contains it. */
  lemma ContainsInfix(a: string, sub: string, b: string)
    ensures Contains(a + sub + b, sub)
  {
    var s := a + sub + b;
    assert s[|a|..|a| + |sub|] == sub;
    assert OccursAt(s, sub, |a|);
    ContainsIffOccurs(s, sub);
  }

  /** A string lacking one of `sub`'s characters cannot contain `sub`. */
  lemma MissingCharExcludes(s: string, sub: string, k: nat)
    requires k < |sub| && sub[k] !in s
    ensures !Contains(s, sub)
  {
    forall i | 0 <= i && i + |sub| <= |s| ensures !OccursAt(s, sub, i) {
      assert s[i..i + |sub|][k] == s[i + k];
    }
    ContainsIffOccurs(s, sub);
  }

  // ---- ASCII case mapping -------------------------------------------------

  predicate IsUpper(c: char) {
    'A' <= c <= 'Z'
  }

  function LowerChar(c: char): char {
    if IsUpper(c) then (c as int + 32) as char else c
  }

  /** `str.lower()` restricted to ASCII letters. */
  function Lower(s: string): (r: string)
    ensures |r| == |s|
    ensures forall i :: 0 <= i < |s| ==> r[i] == LowerChar(s[i])
  {
    if |s| == 0 then "" else [LowerChar(s[0])] + Lower(s[1..])
  }

  /** No upper-case ASCII letter. */
  predicate NoUpper(s: string) {
    forall i :: 0 <= i < |s| ==> !IsUpper(s[i])
  }

  /** Lower-casing leaves no upper-case letter and changes nothing else, so
      doing it twice is doing it once. */
  lemma {:induction false} LowerSpec(s: string)
    ensures NoUpper(Lower(s))
    ensures Lower(Lower(s)) == Lower(s)
    ensures NoUpper(s) ==> Lower(s) == s
  {
    if |s| > 0 {
      LowerSpec(s[1..]);
      assert Lower(s)[1..] == Lower(s[1..]);
    }
  }

  /** Comparing the lower-cased value with "yes" accepts exactly the eight
      spellings of "yes" in upper and lower case. */
  lemma {:induction false} LowerIsYesIff(s: string)
    ensures Lower(s) == "yes" <==>
      |s| == 3 && s[0] in "yY" && s[1] in "eE" && s[2] in "sS"
  {
    if Lower(s) == "yes" {
      assert LowerChar(s[0]) == 'y' && LowerChar(s[1]) == 'e' && LowerChar(s[2]) == 's';
    }
    if |s| == 3 && s[0] in "yY" && s[1] in "eE" && s[2] in "sS" {
      assert Lower(s)[0] == 'y' && Lower(s)[1] == 'e' && Lower(s)[2] == 's';
    }
  }

  // ---- whitespace stripping ----------------------------------------------

  /** Python's `str.isspace()` on ASCII: tab through carriage return, the four
      separator controls 0x1C-0x1F, and space. */
  predicate IsSpace(c: char) {
    9 <= c as int <= 13 || 28 <= c as int <= 32
  }

  function StripLeft(s: string): (r: string)
    ensures |r| <= |s| && r == s[|s| - |r|..]
    ensures forall k :: 0 <= k < |s| - |r| ==> IsSpace(s[k])
    ensures |r| > 0 ==> !IsSpace(r[0])
  {
    if |s| > 0 && IsSpace(s[0]) then StripLeft(s[1..]) else s
  }

  function StripRight(s: string): (r: string)
    ensures |r| <= |s| && r == s[..|r|]
    ensures forall k :: |r| <= k < |s| ==> IsSpace(s[k])
    ensures |r| > 0 ==> !IsSpace(r[|r| - 1])
  {
    if |s| > 0 && IsSpace(s[|s| - 1]) then StripRight(s[..|s| - 1]) else s
  }

  /** `str.strip()` restricted to ASCII whitespace. */
  function Strip(s: string): string {
    StripRight(StripLeft(s))
  }

  /** No leading or trailing whitespace. */
  predicate IsTrimmed(t: string) {
    |t| > 0 ==> !IsSpace(t[0]) && !IsSpace(t[|t| - 1])
  }

  /** `t` is the block of `s` starting at `i` and everything of `s` around
      it is whitespace. */
  ghost predicate SpaceAround(s: string, t: string, i: int) {
    && 0 <= i <= |s| - |t|
    && t == s[i..i + |t|]
    && (forall k :: 0 <= k < i ==> IsSpace(s[k]))
    && (forall k :: i + |t| <= k < |s| ==> IsSpace(s[k]))
  }

  /** What `Strip` computes: the block of `s` left after removing only
      whitespace from both ends, and that block starts and ends with a
      non-space. */
  lemma StripSpec(s: string)
    ensures IsTrimmed(Strip(s))
    ensures exists i :: SpaceAround(s, Strip(s), i)
  {
    var l := StripLeft(s);
    var i := |s| - |l|;
    var r := StripRight(l);
    assert r == s[i..i + |r|];
    if |r| > 0 {
      assert r[0] == l[0];
    }
    assert SpaceAround(s, r, i);
  }

  lemma StripTrimmedIsIdentity(t: string)
    requires IsTrimmed(t)
    ensures Strip(t) == t
  {
  }

  /** `.lower().strip()`: the result is trimmed and has no upper-case
      letter. */
  lemma CleanSpec(s: string)
    ensures IsTrimmed(Strip(Lower(s)))
    ensures NoUpper(Strip(Lower(s)))
  {
    LowerSpec(s);
    StripKeepsNoUpper(Lower(s));
  }

  lemma StripKeepsNoUpper(u: string)
    requires NoUpper(u)
    ensures IsTrimmed(Strip(u)) && NoUpper(Strip(u))
  {
    var t := Strip(u);
    StripSpec(u);
    var i :| SpaceAround(u, t, i);
    forall k | 0 <= k < |t| ensures !IsUpper(t[k]) {
      assert t[k] == u[i + k];
    }
  }

  /** Cleaning a cleaned string again changes nothing. */
  lemma CleanIdempotent(s: string)
    ensures Strip(Lower(Strip(Lower(s)))) == Strip(Lower(s))
  {
    var t := Strip(Lower(s));
    CleanSpec(s);
    LowerSpec(t);
    StripTrimmedIsIdentity(t);
  }

  // ---- Python's string ordering ---------------------------------------------

  /** `a < b` on Python strings: lexicographic by code point, a proper prefix
      sorting first. */
  predicate StrLess(a: string, b: string)
    decreases |a|
  {
    if |a| == 0 then |b| > 0
    else if |b| == 0 then false
    else if a[0] != b[0] then a[0] < b[0]
    else StrLess(a[1..], b[1..])
  }

  lemma {:induction false} StrLessIrreflexive(a: string)
    ensures !StrLess(a, a)
    decreases |a|
  {
    if |a| > 0 {
      StrLessIrreflexive(a[1..]);
    }
  }

  lemma {:induction false} StrLessTransitive(a: string, b: string, c: string)
    requires StrLess(a, b) && StrLess(b, c)
    ensures StrLess(a, c)
    decreases |a|
  {
    if |a| > 0 && a[0] == b[0] && b[0] == c[0] {
      StrLessTransitive(a[1..], b[1..], c[1..]);
    }
  }

  lemma {:induction false} StrLessTotal(a: string, b: string)
    requires a != b
    ensures StrLess(a, b) || StrLess(b, a)
    decreases |a|
  {
    if |a| > 0 && |b| > 0 && a[0] == b[0] {
      assert a == [a[0]] + a[1..] && b == [b[0]] + b[1..];
      StrLessTotal(a[1..], b[1..]);
    }
  }

  lemma StrLessIsStrictTotalOrder()
    ensures Ordering.StrictTotalOrder(StrLess)
  {
    forall a | true ensures !StrLess(a, a) {
      StrLessIrreflexive(a);
    }
    forall a, b, c | StrLess(a, b) && StrLess(b, c) ensures StrLess(a, c) {
      StrLessTransitive(a, b, c);
    }
    forall a, b | a != b ensures StrLess(a, b) || StrLess(b, a) {
      StrLessTotal(a, b);
    }
  }
}
