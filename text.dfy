/**
 * The Python string built-ins the normaliser uses: `str.replace` with a one-character
 * pattern and an empty replacement, `str.strip()` without arguments, and
 * `str.capitalize()`, whose case mapping is modelled on ASCII letters only.
 */
module Text {

  /** 'Â' (U+00C2): what is left in front of '£' when UTF-8 text is decoded as Latin-1. */
  const Artifact: char := '\U{00C2}'

  /** The code points for which Python's `str.isspace` holds: the characters `strip()` removes. */
  const Whitespace: set<char> := {
    '\t', '\n', '\U{0B}', '\U{0C}', '\r', '\U{1C}', '\U{1D}', '\U{1E}', '\U{1F}', ' ',
    '\U{85}', '\U{A0}', '\U{1680}', '\U{2000}', '\U{2001}', '\U{2002}', '\U{2003}', '\U{2004}',
    '\U{2005}', '\U{2006}', '\U{2007}', '\U{2008}', '\U{2009}', '\U{200A}', '\U{2028}',
    '\U{2029}', '\U{202F}', '\U{205F}', '\U{3000}'
  }

  predicate IsSpace(c: char)
  {
    c in Whitespace
  }

  predicate IsLowerAscii(c: char) { 'a' <= c <= 'z' }

  predicate IsUpperAscii(c: char) { 'A' <= c <= 'Z' }

  /** Upper-case mapping of one character: ASCII letters only, everything else is kept. */
  function Upper(c: char): (u: char)
    ensures !IsLowerAscii(u)
    ensures IsLowerAscii(c) || u == c
  {
    if IsLowerAscii(c) then (c as int - 32) as char else c
  }

  /** Lower-case mapping of one character: ASCII letters only, everything else is kept. */
  function Lower(c: char): (l: char)
    ensures !IsUpperAscii(l)
    ensures IsUpperAscii(c) || l == c
  {
    if IsUpperAscii(c) then (c as int + 32) as char else c
  }

  /** The two mappings agree on which letter a character is. */
  lemma CaseAgrees(c: char)
    ensures Lower(Upper(c)) == Lower(c)
    ensures Upper(Lower(c)) == Upper(c)
  {
  }

  /** `s.replace(c, "")` for a one-character `c` */
  function RemoveChar(s: string, c: char): string
  {
    if s == [] then []
    else if s[0] == c then RemoveChar(s[1..], c)
    else [s[0]] + RemoveChar(s[1..], c)
  }

  /** Every occurrence of `c` goes, every other character stays, and a string without `c` is kept. */
  lemma {:induction false} RemoveCharSpec(s: string, c: char)
    ensures c !in RemoveChar(s, c)
    ensures multiset(RemoveChar(s, c)) == multiset(s)[c := 0]
    ensures c !in s ==> RemoveChar(s, c) == s
  {
    if s != [] {
      RemoveCharSpec(s[1..], c);
      assert s == [s[0]] + s[1..];
    }
  }

  /** Removing a character from one character keeps it exactly when it differs from `c`. */
  lemma RemoveCharSingle(x: char, c: char)
    ensures RemoveChar([x], c) == if x == c then [] else [x]
  {
  }

  /**
   * Removal works piece by piece and keeps the order of what it keeps: with `RemoveCharSingle`
   * this fixes `RemoveChar(s, c)` as the characters of `s` other than `c`, in their order.
   */
  lemma {:induction false} RemoveCharAppend(a: string, b: string, c: char)
    ensures RemoveChar(a + b, c) == RemoveChar(a, c) + RemoveChar(b, c)
  {
    if a == [] {
      assert a + b == b;
    } else {
      var ab := a + b;
      assert ab != [] && ab[0] == a[0];
      assert ab[1..] == a[1..] + b;
      RemoveCharAppend(a[1..], b, c);
      var ra, rb := RemoveChar(a[1..], c), RemoveChar(b, c);
      if a[0] == c {
        assert RemoveChar(ab, c) == ra + rb;
        assert RemoveChar(a, c) == ra;
      } else {
        assert RemoveChar(ab, c) == [a[0]] + (ra + rb);
        assert RemoveChar(a, c) == [a[0]] + ra;
        assert [a[0]] + (ra + rb) == ([a[0]] + ra) + rb;
      }
    }
  }

  /** The length of the longest whitespace prefix of `s`. */
  function LeadingSpaces(s: string): (n: nat)
    ensures n <= |s|
    ensures forall i :: 0 <= i < n ==> IsSpace(s[i])
    ensures n < |s| ==> !IsSpace(s[n])
  {
    if s == [] || !IsSpace(s[0]) then 0 else 1 + LeadingSpaces(s[1..])
  }

  /** The length of the longest whitespace suffix of `s`. */
  function TrailingSpaces(s: string): (n: nat)
    ensures n <= |s|
    ensures forall i :: |s| - n <= i < |s| ==> IsSpace(s[i])
    ensures n < |s| ==> !IsSpace(s[|s| - 1 - n])
  {
    if s == [] || !IsSpace(s[|s| - 1]) then 0 else 1 + TrailingSpaces(s[..|s| - 1])
  }

  /** Neither end of `s` is whitespace. */
  predicate IsStripped(s: string)
  {
    s == [] || (!IsSpace(s[0]) && !IsSpace(s[|s| - 1]))
  }

  /** `s.strip()` */
  function Strip(s: string): string
  {
    var t := s[LeadingSpaces(s)..];
    t[..|t| - TrailingSpaces(t)]
  }

  /**
   * What `strip()` returns is the slice of `s` left after the longest whitespace prefix and
   * the longest whitespace suffix are cut off: no whitespace at either end, only whitespace cut.
   */
  lemma StripSpec(s: string)
    ensures IsStripped(Strip(s))
    ensures LeadingSpaces(s) + |Strip(s)| <= |s|
    ensures Strip(s) == s[LeadingSpaces(s)..LeadingSpaces(s) + |Strip(s)|]
    ensures forall i :: LeadingSpaces(s) + |Strip(s)| <= i < |s| ==> IsSpace(s[i])
  {
  }

  /** Stripping keeps only characters of its input, so it cannot bring a character in. */
  lemma StripKeepsChars(s: string, c: char)
    requires c !in s
    ensures c !in Strip(s)
  {
    var r, n := Strip(s), LeadingSpaces(s);
    StripSpec(s);
    forall i | 0 <= i < |r| ensures r[i] != c {
      assert r[i] == s[n + i];
    }
  }

  /** A string with no whitespace at either end is its own `strip()`. */
  lemma StripFixpoint(s: string)
    requires IsStripped(s)
    ensures Strip(s) == s
  {
    assert LeadingSpaces(s) == 0;
    assert TrailingSpaces(s) == 0;
  }

  /** `s.lower()` restricted to ASCII letters. */
  function LowerAll(s: string): (r: string)
    ensures |r| == |s|
    ensures forall i :: 0 <= i < |s| ==> r[i] == Lower(s[i])
  {
    if s == [] then [] else [Lower(s[0])] + LowerAll(s[1..])
  }

  /** `s.capitalize()`: the first character upper-cased, all later ones lower-cased. */
  function Capitalize(s: string): (r: string)
    ensures |r| == |s|
    ensures |s| > 0 ==> r[0] == Upper(s[0])
    ensures forall i :: 1 <= i < |s| ==> r[i] == Lower(s[i])
  {
    if s == [] then [] else [Upper(s[0])] + LowerAll(s[1..])
  }

  /** The shape `capitalize()` produces: no lower-case first letter, no upper-case later letter. */
  predicate IsCapitalized(s: string)
  {
    (|s| > 0 ==> !IsLowerAscii(s[0])) && forall i :: 1 <= i < |s| ==> !IsUpperAscii(s[i])
  }

  /** Every result of `capitalize()` has the capitalised shape, and the empty title stays empty. */
  lemma CapitalizeShape(s: string)
    ensures IsCapitalized(Capitalize(s))
    ensures Capitalize(s) == [] <==> s == []
  {
  }

  /** `capitalize()` leaves a string unchanged exactly when it already has the capitalised shape. */
  lemma CapitalizeFixpoint(s: string)
    ensures Capitalize(s) == s <==> IsCapitalized(s)
  {
    if IsCapitalized(s) {
      forall i | 0 <= i < |s| ensures Capitalize(s)[i] == s[i] {
      }
    }
  }

  /** Capitalising twice is capitalising once. */
  lemma CapitalizeIdempotent(s: string)
    ensures Capitalize(Capitalize(s)) == Capitalize(s)
  {
    CapitalizeShape(s);
    CapitalizeFixpoint(Capitalize(s));
  }

  /**
   * Two titles capitalise to the same key exactly when they are the same up to ASCII case,
   * which is why the upsert that follows normalisation treats "foo" and "Foo" as one title.
   */
  lemma CapitalizeIgnoresCase(s: string, t: string)
    ensures Capitalize(s) == Capitalize(t) <==>
      |s| == |t| && forall i :: 0 <= i < |s| ==> Lower(s[i]) == Lower(t[i])
  {
    if |s| == |t| && forall i :: 0 <= i < |s| ==> Lower(s[i]) == Lower(t[i]) {
      forall i | 0 <= i < |s| ensures Capitalize(s)[i] == Capitalize(t)[i] {
        if i == 0 {
          CaseAgrees(s[0]);
          CaseAgrees(t[0]);
        }
      }
    }
    if Capitalize(s) == Capitalize(t) {
      forall i | 0 <= i < |s| ensures Lower(s[i]) == Lower(t[i]) {
        if i == 0 {
          CaseAgrees(s[0]);
          CaseAgrees(t[0]);
          assert Capitalize(s)[0] == Capitalize(t)[0];
        } else {
          assert Capitalize(s)[i] == Capitalize(t)[i];
        }
      }
    }
  }
}
