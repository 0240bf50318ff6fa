/**
 * The java.lang.String and java.lang.Integer operations the plugin relies on:
 * case-insensitive comparison and case conversion (ASCII letters only),
 * `replace(".*", "")`, `startsWith`, `Integer.parseInt`, `String.valueOf(int)`
 * and `split("\\.")`.
 */
module JavaText {
  import opened Wrappers

  const MinInt: int := -0x8000_0000
  const MaxInt: int := 0x7fff_ffff

  /** The range of a Java `int`. */
  predicate IsInt32(n: int) {
    MinInt <= n <= MaxInt
  }

  /**
   * Number.intValue() on an integral number, which is how getInt converts a stored value:
   * the low 32 bits, read as a two's-complement `int`.
   */
  function ToInt32(n: int): (r: int)
    ensures IsInt32(r)
    ensures (n - r) % 0x1_0000_0000 == 0
    ensures IsInt32(n) ==> r == n
  {
    var low := n % 0x1_0000_0000;
    if low <= MaxInt then low else low - 0x1_0000_0000
  }

  /** The 32-bit value of a number is the only `int` congruent to it modulo 2^32. */
  lemma ToInt32Unique(n: int, r: int)
    requires IsInt32(r) && (n - r) % 0x1_0000_0000 == 0
    ensures ToInt32(n) == r
  {
    var d := ToInt32(n) - r;
    assert d % 0x1_0000_0000 == 0 by {
      assert d == (n - r) - (n - ToInt32(n));
    }
    assert -0x1_0000_0000 < d < 0x1_0000_0000;
  }

  /** A stored 4294967297 (2^32 + 1) reads as 1, and 2147483648 as -2147483648. */
  lemma ToInt32Wraps()
    ensures ToInt32(0x1_0000_0001) == 1
    ensures ToInt32(0x8000_0000) == MinInt
  {
  }

  // ---------------------------------------------------------------------------
  // Case

  /** Character.toUpperCase on the ASCII letters; every other character maps to itself. */
  function UpperChar(c: char): char {
    if 'a' <= c <= 'z' then (c as int - 32) as char else c
  }

  /** Character.toLowerCase on the ASCII letters; every other character maps to itself. */
  function LowerChar(c: char): char {
    if 'A' <= c <= 'Z' then (c as int + 32) as char else c
  }

  /** String.toUpperCase(). */
  function ToUpper(s: string): string {
    seq(|s|, i requires 0 <= i < |s| => UpperChar(s[i]))
  }

  /** String.toLowerCase(). */
  function ToLower(s: string): string {
    seq(|s|, i requires 0 <= i < |s| => LowerChar(s[i]))
  }

  /** The character test of String.regionMatches(ignoreCase = true). */
  predicate CharsEqualIgnoreCase(x: char, y: char) {
    x == y || UpperChar(x) == UpperChar(y) || LowerChar(UpperChar(x)) == LowerChar(UpperChar(y))
  }

  /** String.equalsIgnoreCase (neither argument is null here). */
  predicate EqualsIgnoreCase(a: string, b: string) {
    |a| == |b| && forall i :: 0 <= i < |a| ==> CharsEqualIgnoreCase(a[i], b[i])
  }

  /** Two strings are equal ignoring case exactly when their upper-case forms are equal. */
  lemma EqualsIgnoreCaseIffSameUpper(a: string, b: string)
    ensures EqualsIgnoreCase(a, b) <==> ToUpper(a) == ToUpper(b)
  {
    if EqualsIgnoreCase(a, b) {
      forall i | 0 <= i < |a| ensures ToUpper(a)[i] == ToUpper(b)[i] {
        assert CharsEqualIgnoreCase(a[i], b[i]);
      }
    }
    if ToUpper(a) == ToUpper(b) {
      forall i | 0 <= i < |a| ensures CharsEqualIgnoreCase(a[i], b[i]) {
        assert ToUpper(a)[i] == ToUpper(b)[i];
      }
    }
  }

  /** A string equal, ignoring case, to an upper-case literal is turned into that literal by toUpperCase. */
  lemma UpperOfEqualIgnoringCase(s: string, literal: string)
    requires EqualsIgnoreCase(s, literal)
    requires ToUpper(literal) == literal
    ensures ToUpper(s) == literal
  {
    EqualsIgnoreCaseIffSameUpper(s, literal);
  }

  /** A string equal, ignoring case, to a lower-case literal is turned into that literal by toLowerCase. */
  lemma LowerOfEqualIgnoringCase(s: string, literal: string)
    requires EqualsIgnoreCase(s, literal)
    requires ToLower(literal) == literal
    ensures ToLower(s) == literal
  {
    forall i | 0 <= i < |s| ensures ToLower(s)[i] == literal[i] {
      assert CharsEqualIgnoreCase(s[i], literal[i]);
      assert LowerChar(literal[i]) == literal[i] by {
        assert ToLower(literal)[i] == literal[i];
      }
    }
  }

  // ---------------------------------------------------------------------------
  // replace(".*", "") and startsWith

  /**
   * String.replace(".*", ""): every occurrence of the two characters `.*`, found left to
   * right without overlap, is deleted. One pass only: "..**" becomes ".*".
   */
  function RemoveWildcards(s: string): (r: string)
    ensures |r| <= |s|
    decreases |s|
  {
    if |s| >= 2 && s[0] == '.' && s[1] == '*' then RemoveWildcards(s[2..])
    else if s == [] then []
    else [s[0]] + RemoveWildcards(s[1..])
  }

  /** `.*` occurs in `s` as a substring. */
  predicate HasWildcard(s: string) {
    exists i :: 0 <= i < |s| - 1 && s[i] == '.' && s[i + 1] == '*'
  }

  /** String.startsWith. */
  predicate StartsWith(s: string, prefix: string) {
    prefix <= s
  }

  /** Without any `.*` in it, replace leaves a string as it is. */
  lemma {:induction false} RemoveWildcardsIdentity(s: string)
    requires !HasWildcard(s)
    ensures RemoveWildcards(s) == s
    decreases |s|
  {
    if s != [] {
      assert !(|s| >= 2 && s[0] == '.' && s[1] == '*');
      assert !HasWildcard(s[1..]);
      RemoveWildcardsIdentity(s[1..]);
    }
  }

  /** A trailing `.*` is always the last thing replace deletes: it never overlaps a preceding match. */
  lemma {:induction false} RemoveTrailingWildcard(p: string)
    ensures RemoveWildcards(p + ".*") == RemoveWildcards(p)
    decreases |p|
  {
    if p == [] {
      assert RemoveWildcards(".*") == RemoveWildcards(".*"[2..]);
    } else if |p| >= 2 && p[0] == '.' && p[1] == '*' {
      assert (p + ".*")[2..] == p[2..] + ".*";
      RemoveTrailingWildcard(p[2..]);
    } else if |p| == 1 && p[0] == '.' {
      // ".": the scan sees "..*", keeps the first dot and deletes ".*".
      assert p + ".*" == "..*";
      assert RemoveWildcards("..*") == "." + RemoveWildcards(".*");
      assert RemoveWildcards(".*") == RemoveWildcards("");
      assert RemoveWildcards(".") == "." + RemoveWildcards("");
    } else {
      assert (p + ".*")[1..] == p[1..] + ".*";
      RemoveTrailingWildcard(p[1..]);
    }
  }

  // ---------------------------------------------------------------------------
  // Integer.parseInt and String.valueOf(int)

  predicate IsDigit(c: char) {
    '0' <= c <= '9'
  }

  predicate AllDigits(s: string) {
    forall i :: 0 <= i < |s| ==> IsDigit(s[i])
  }

  function DigitValue(c: char): nat
    requires IsDigit(c)
  {
    c as int - '0' as int
  }

  function DigitChar(d: nat): (c: char)
    requires d < 10
    ensures IsDigit(c) && DigitValue(c) == d
  {
    ('0' as int + d) as char
  }

  /** The value of a string of decimal digits, most significant first. */
  function DigitsValue(s: string): nat
    requires AllDigits(s)
  {
    if s == [] then 0 else DigitsValue(s[..|s| - 1]) * 10 + DigitValue(s[|s| - 1])
  }

  /**
   * Integer.parseInt(s): an optional `+` or `-` followed by at least one decimal digit,
   * whose value fits in an `int`. `None` stands for the NumberFormatException.
   */
  function ParseInt(s: string): (r: Option<int>)
    ensures r.Some? ==> IsInt32(r.value)
  {
    if s == [] then None
    else if s[0] == '-' || s[0] == '+' then
      if |s| == 1 || !AllDigits(s[1..]) then None
      else
        var v: int := if s[0] == '-' then 0 - (DigitsValue(s[1..]) as int) else DigitsValue(s[1..]);
        if IsInt32(v) then Some(v) else None
    else if !AllDigits(s) then None
    else if DigitsValue(s) <= MaxInt then Some(DigitsValue(s))
    else None
  }

  /** The decimal digits of `n`, without leading zeros. */
  function NatToDigits(n: nat): (r: string)
    ensures |r| > 0
    decreases n
  {
    if n < 10 then [DigitChar(n)] else NatToDigits(n / 10) + [DigitChar(n % 10)]
  }

  /** String.valueOf(int). */
  function IntToString(n: int): string {
    if n < 0 then "-" + NatToDigits(-n) else NatToDigits(n)
  }

  lemma {:induction false} DigitsRoundTrip(n: nat)
    ensures AllDigits(NatToDigits(n)) && DigitsValue(NatToDigits(n)) == n
    decreases n
  {
    var s := NatToDigits(n);
    if n >= 10 {
      DigitsRoundTrip(n / 10);
      assert s[..|s| - 1] == NatToDigits(n / 10);
      assert s[|s| - 1] == DigitChar(n % 10);
    }
  }

  /** Integer.parseInt(String.valueOf(n)) gives `n` back for every Java `int`. */
  lemma ParseIntValueOf(n: int)
    requires IsInt32(n)
    ensures ParseInt(IntToString(n)) == Some(n)
  {
    var s := IntToString(n);
    if n < 0 {
      DigitsRoundTrip(-n);
      assert s[1..] == NatToDigits(-n);
    } else {
      DigitsRoundTrip(n);
      assert IsDigit(s[0]);
    }
  }

  // ---------------------------------------------------------------------------
  // split("\\.")

  /** Every piece between the dots of `s`, empty pieces included: one more piece than there are dots. */
  function SplitAll(s: string): (r: seq<string>)
    ensures |r| > 0
    decreases |s|
  {
    if s == [] then [""]
    else
      var rest := SplitAll(s[1..]);
      if s[0] == '.' then [""] + rest else [[s[0]] + rest[0]] + rest[1..]
  }

  /** The list with its trailing empty strings removed. */
  function DropTrailingEmpty(parts: seq<string>): (r: seq<string>)
    ensures |r| <= |parts| && r == parts[..|r|]
    ensures r != [] ==> r[|r| - 1] != ""
  {
    if parts == [] then []
    else if parts[|parts| - 1] == "" then DropTrailingEmpty(parts[..|parts| - 1])
    else parts
  }

  /**
   * String.split("\\."): a string without a dot gives itself alone (so "" gives [""]);
   * otherwise the pieces between the dots, less the trailing empty ones.
   */
  function SplitDots(s: string): seq<string> {
    if '.' in s then DropTrailingEmpty(SplitAll(s)) else [s]
  }

  /** The pieces joined back with dots between them (the inverse of SplitAll). */
  function JoinDots(parts: seq<string>): string
    requires parts != []
  {
    if |parts| == 1 then parts[0] else parts[0] + "." + JoinDots(parts[1..])
  }

  /** `n` dots. */
  function Dots(n: nat): (r: string)
    ensures |r| == n && forall i :: 0 <= i < n ==> r[i] == '.'
  {
    if n == 0 then "" else "." + Dots(n - 1)
  }

  /** `n` empty strings. */
  function Empties(n: nat): (r: seq<string>)
    ensures |r| == n && forall i :: 0 <= i < n ==> r[i] == ""
  {
    if n == 0 then [] else [""] + Empties(n - 1)
  }

  /** Splitting and joining again gives the string back, and no piece contains a dot. */
  lemma {:induction false} SplitAllJoin(s: string)
    ensures JoinDots(SplitAll(s)) == s
    ensures forall k :: 0 <= k < |SplitAll(s)| ==> '.' !in SplitAll(s)[k]
    decreases |s|
  {
    if s != [] {
      var rest := SplitAll(s[1..]);
      SplitAllJoin(s[1..]);
      if s[0] == '.' {
        assert SplitAll(s) == [""] + rest;
        assert JoinDots(SplitAll(s)) == "" + "." + JoinDots(rest);
        assert s == [s[0]] + s[1..];
      } else {
        var r := SplitAll(s);
        assert r == [[s[0]] + rest[0]] + rest[1..];
        if |rest| == 1 {
          assert JoinDots(r) == r[0];
        } else {
          assert r[1..] == rest[1..];
          assert JoinDots(r) == r[0] + "." + JoinDots(rest[1..]);
          assert JoinDots(rest) == rest[0] + "." + JoinDots(rest[1..]);
        }
        assert s == [s[0]] + s[1..];
        forall k | 0 <= k < |r| ensures '.' !in r[k] {
          if k > 0 { assert r[k] == rest[k]; }
        }
      }
    }
  }

  /** A dot-free first piece is split off on its own. */
  lemma {:induction false} SplitAllCons(x: string, y: string)
    requires '.' !in x
    ensures SplitAll(x + "." + y) == [x] + SplitAll(y)
    decreases |x|
  {
    if x == [] {
      assert x + "." + y == "." + y;
      assert ("." + y)[1..] == y;
    } else {
      assert (x + "." + y)[1..] == x[1..] + "." + y;
      SplitAllCons(x[1..], y);
      assert [x[0]] + x[1..] == x;
    }
  }

  /** A dot-free piece followed by `n` dots splits into the piece and `n` empty strings. */
  lemma {:induction false} SplitAllTrailingDots(d: string, n: nat)
    requires '.' !in d
    ensures SplitAll(d + Dots(n)) == [d] + Empties(n)
    decreases n
  {
    if n == 0 {
      assert d + Dots(0) == d;
      SplitAllJoin(d);
      SplitAllNoDot(d);
    } else {
      assert d + Dots(n) == d + "." + Dots(n - 1);
      SplitAllCons(d, Dots(n - 1));
      SplitAllTrailingDots("", n - 1);
      assert "" + Dots(n - 1) == Dots(n - 1);
    }
  }

  /** A string without a dot is one piece. */
  lemma {:induction false} SplitAllNoDot(s: string)
    requires '.' !in s
    ensures SplitAll(s) == [s]
    decreases |s|
  {
    if s != [] {
      SplitAllNoDot(s[1..]);
      assert [s[0]] + s[1..] == s;
    }
  }

  /** Removing trailing empty strings keeps the pieces if the last one is not empty. */
  lemma {:induction false} DropTrailingEmptyKeeps(parts: seq<string>, n: nat)
    requires parts != [] && parts[|parts| - 1] != ""
    ensures DropTrailingEmpty(parts + Empties(n)) == parts
    decreases n
  {
    if n > 0 {
      var all := parts + Empties(n);
      assert all[..|all| - 1] == parts + Empties(n - 1);
      DropTrailingEmptyKeeps(parts, n - 1);
    }
  }

  /** What DropTrailingEmpty removes is a run of empty strings. */
  lemma {:induction false} DropTrailingEmptyRemovesEmpties(parts: seq<string>)
    ensures parts == DropTrailingEmpty(parts) + Empties(|parts| - |DropTrailingEmpty(parts)|)
    decreases |parts|
  {
    if parts != [] && parts[|parts| - 1] == "" {
      var init := parts[..|parts| - 1];
      DropTrailingEmptyRemovesEmpties(init);
      var kept := DropTrailingEmpty(init);
      assert DropTrailingEmpty(parts) == kept;
      var n := |init| - |kept|;
      EmptiesSnoc(n);
      assert parts == init + [""];
      assert parts == kept + (Empties(n) + [""]);
    }
  }

  lemma EmptiesSnoc(n: nat)
    ensures Empties(n) + [""] == Empties(n + 1)
  {
  }

  /** Joining pieces followed by `n` empty strings is joining the pieces followed by `n` dots. */
  lemma {:induction false} JoinDotsEmpties(parts: seq<string>, n: nat)
    requires parts != []
    ensures JoinDots(parts + Empties(n)) == JoinDots(parts) + Dots(n)
    decreases |parts| + n
  {
    if |parts| == 1 {
      if n > 0 {
        var all := parts + Empties(n);
        assert all[1..] == [""] + Empties(n - 1);
        JoinDotsEmpties([""], n - 1);
        assert JoinDots(all) == parts[0] + "." + JoinDots([""] + Empties(n - 1));
        assert JoinDots([""]) == "";
        assert Dots(n) == "." + Dots(n - 1);
      } else {
        assert parts + Empties(0) == parts;
      }
    } else {
      var all := parts + Empties(n);
      assert all[1..] == parts[1..] + Empties(n);
      JoinDotsEmpties(parts[1..], n);
    }
  }
}
