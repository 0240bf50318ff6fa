/**
 * PortIPManager.isValidIP: the check applied to the `ip` of every stored per-IP rule when
 * it is loaded. Split at the dots, there must be exactly four pieces, each parsing as an
 * `int` between 0 and 255.
 */
module IpAddress {
  import opened Wrappers
  import opened JavaText

  /** A piece Integer.parseInt accepts with a value in 0..255. */
  predicate Octet(part: string) {
    var n := ParseInt(part);
    n.Some? && 0 <= n.value <= 255
  }

  /** What isValidIP accepts; `None` is a missing `ip` field. */
  predicate ValidIp(ip: Option<string>) {
    ip.Some? &&
    var parts := SplitDots(ip.value);
    |parts| == 4 && forall k :: 0 <= k < 4 ==> Octet(parts[k])
  }

  /** Four pieces with dots between them. */
  function Dotted(a: string, b: string, c: string, d: string): string {
    a + "." + b + "." + c + "." + d
  }

  /**
   * isValidIP. A missing address is rejected (in Upnpfirewall.java the null reaches
   * `split` and the NullPointerException is caught by the loader, with the same effect);
   * a NumberFormatException from a piece gives false.
   */
  method IsValidIp(ip: Option<string>) returns (valid: bool)
    ensures valid == ValidIp(ip)
  {
    if ip.None? {
      return false;
    }
    var parts := SplitDots(ip.value);
    if |parts| != 4 {
      return false;
    }
    valid := AllOctets(parts);
  }

  /** The loop of isValidIP over the pieces: false at the first one that is not an octet. */
  method AllOctets(parts: seq<string>) returns (valid: bool)
    ensures valid <==> forall k :: 0 <= k < |parts| ==> Octet(parts[k])
  {
    var i := 0;
    while i < |parts|
      invariant 0 <= i <= |parts|
      invariant forall k :: 0 <= k < i ==> Octet(parts[k])
    {
      var num := ParseInt(parts[i]);
      if num.None? {
        return false;
      }
      if num.value < 0 || num.value > 255 {
        return false;
      }
      i := i + 1;
    }
    return true;
  }

  /** Every octet is a non-empty piece, so it is never cut off as a trailing empty string. */
  lemma OctetNonEmpty(part: string)
    requires Octet(part)
    ensures part != ""
  {
  }

  /** Four dot-free pieces, the last non-empty, joined by dots and followed by dots, split back into the four. */
  lemma SplitDotted(a: string, b: string, c: string, d: string, k: nat)
    requires '.' !in a && '.' !in b && '.' !in c && '.' !in d && d != ""
    ensures SplitDots(Dotted(a, b, c, d) + Dots(k)) == [a, b, c, d]
  {
    var s := Dotted(a, b, c, d) + Dots(k);
    SplitAllDotted(a, b, c, d, k);
    assert s[|a|] == '.';
    DropTrailingEmptyKeeps([a, b, c, d], k);
  }

  /** Before the trailing empties are dropped, the split has one empty piece per trailing dot. */
  lemma SplitAllDotted(a: string, b: string, c: string, d: string, k: nat)
    requires '.' !in a && '.' !in b && '.' !in c && '.' !in d
    ensures SplitAll(Dotted(a, b, c, d) + Dots(k)) == [a, b, c, d] + Empties(k)
  {
    var t3 := d + Dots(k);
    var t2 := c + "." + t3;
    var t1 := b + "." + t2;
    assert Dotted(a, b, c, d) + Dots(k) == a + "." + t1;
    SplitAllTrailingDots(d, k);
    SplitAllCons(c, t3);
    SplitAllCons(b, t2);
    SplitAllCons(a, t1);
    assert [a] + ([b] + ([c] + ([d] + Empties(k)))) == [a, b, c, d] + Empties(k);
  }

  /**
   * Completeness: four dot-free octets joined by dots are accepted, and so they are with
   * any number of dots after them (split drops the trailing empty pieces).
   */
  lemma ValidIpComplete(a: string, b: string, c: string, d: string, k: nat)
    requires Octet(a) && Octet(b) && Octet(c) && Octet(d)
    requires '.' !in a && '.' !in b && '.' !in c && '.' !in d
    ensures ValidIp(Some(Dotted(a, b, c, d) + Dots(k)))
  {
    OctetNonEmpty(d);
    SplitDotted(a, b, c, d, k);
  }

  /**
   * Soundness: an accepted address is four dot-free octets joined by dots, followed by
   * nothing but dots.
   */
  lemma ValidIpSound(s: string)
    requires ValidIp(Some(s))
    ensures var parts := SplitDots(s);
            (forall k :: 0 <= k < 4 ==> Octet(parts[k]) && '.' !in parts[k]) &&
            s == Dotted(parts[0], parts[1], parts[2], parts[3]) + Dots(|SplitAll(s)| - 4)
  {
    var parts := SplitDots(s);
    assert '.' in s;
    var all := SplitAll(s);
    SplitAllJoin(s);
    DropTrailingEmptyRemovesEmpties(all);
    assert parts == all[..4];
    forall k | 0 <= k < 4 ensures '.' !in parts[k] {
      assert parts[k] == all[k];
    }
    JoinDotsEmpties(parts, |all| - 4);
    JoinFour(parts);
  }

  lemma JoinFour(parts: seq<string>)
    requires |parts| == 4
    ensures JoinDots(parts) == Dotted(parts[0], parts[1], parts[2], parts[3])
  {
    var p1 := parts[1..];
    var p2 := p1[1..];
    var p3 := p2[1..];
    assert p1[0] == parts[1] && p2[0] == parts[2] && p3 == [parts[3]];
    var j2 := parts[2] + "." + parts[3];
    assert JoinDots(p2) == j2;
    assert JoinDots(p1) == parts[1] + "." + j2;
    assert JoinDots(parts) == parts[0] + "." + (parts[1] + "." + j2);
    DottedNested(parts[0], parts[1], parts[2], parts[3]);
  }

  /** Dotted, grouped from the right as JoinDots builds it. */
  lemma DottedNested(a: string, b: string, c: string, d: string)
    ensures Dotted(a, b, c, d) == a + "." + (b + "." + (c + "." + d))
  {
    var dot := ".";
    assert a + dot + b + dot + c + dot + d == a + dot + (b + dot + (c + dot + d));
  }

  /** A missing address is rejected. */
  lemma RejectsMissing()
    ensures !ValidIp(None)
  {
  }

  /** Three pieces are rejected. */
  lemma RejectsThreePieces()
    ensures !ValidIp(Some("10.0.0"))
  {
    var s := "10.0.0";
    assert s == "10" + "." + ("0" + "." + "0");
    SplitAllNoDot("0");
    SplitAllCons("0", "0");
    SplitAllCons("10", "0" + "." + "0");
    assert s[2] == '.';
    DropTrailingEmptyKeeps(["10", "0", "0"], 0);
    assert ["10", "0", "0"] + Empties(0) == ["10", "0", "0"];
  }

  /** An empty piece between two dots is rejected. */
  lemma RejectsEmptyPiece()
    ensures !ValidIp(Some("10.0..1"))
  {
    SplitDotted("10", "0", "", "1", 0);
    assert Dotted("10", "0", "", "1") + Dots(0) == "10.0..1";
    assert SplitDots("10.0..1")[2] == "";
    assert !Octet("");
  }

  /** The value of a three-digit piece. */
  lemma ThreeDigits(x: char, y: char, z: char)
    requires IsDigit(x) && IsDigit(y) && IsDigit(z)
    ensures DigitsValue([x, y, z]) == 100 * DigitValue(x) + 10 * DigitValue(y) + DigitValue(z)
  {
    assert [x][..0] == [];
    assert DigitsValue([x]) == DigitValue(x);
    assert [x, y][..1] == [x];
    assert DigitsValue([x, y]) == 10 * DigitValue(x) + DigitValue(y);
    assert [x, y, z][..2] == [x, y];
  }

  /** A piece above 255 is rejected. */
  lemma RejectsLargePiece()
    ensures !ValidIp(Some("10.0.0.256"))
  {
    assert Dotted("10", "0", "0", "256") + Dots(0) == "10.0.0.256";
    SplitDotted("10", "0", "0", "256", 0);
    ThreeDigits('2', '5', '6');
    assert !Octet("256");
  }

  /** Integer.parseInt accepts a sign, so signed pieces such as "+1" and "-0" pass. */
  lemma AcceptsSignedPieces()
    ensures ValidIp(Some("+1.-0.0.255"))
  {
    var s := Dotted("+1", "-0", "0", "255") + Dots(0);
    assert s == "+1.-0.0.255";
    ThreeDigits('2', '5', '5');
    assert "255" == ['2', '5', '5'];
    DigitsOctet("255");
    assert "-0"[1..] == "0" && "+1"[1..] == "1";
    assert Octet("+1") && Octet("-0");
    ValidIpComplete("+1", "-0", "0", "255", 0);
  }

  /** A trailing dot is dropped by split, so the address is still accepted. */
  lemma AcceptsTrailingDot()
    ensures ValidIp(Some("192.168.0.1."))
  {
    var s := Dotted("192", "168", "0", "1") + Dots(1);
    assert s == "192.168.0.1.";
    OctetsOfPrivateAddress();
    ValidIpComplete("192", "168", "0", "1", 1);
  }

  /** An unsigned piece of digits with a value up to 255 is an octet. */
  lemma DigitsOctet(part: string)
    requires part != [] && AllDigits(part) && DigitsValue(part) <= 255
    ensures Octet(part)
  {
    assert IsDigit(part[0]);
  }

  lemma OctetsOfPrivateAddress()
    ensures Octet("192") && Octet("168") && Octet("0") && Octet("1")
  {
    ThreeDigits('1', '9', '2');
    assert "192" == ['1', '9', '2'];
    DigitsOctet("192");
    ThreeDigits('1', '6', '8');
    assert "168" == ['1', '6', '8'];
    DigitsOctet("168");
  }
}
