/** Hardware addresses as lower-case text. */
module MacAddress {

  predicate IsHex(c: char) {
    '0' <= c <= '9' || 'a' <= c <= 'f'
  }

  /** Six pairs of hexadecimal digits between colons. */
  predicate IsMac(s: string) {
    |s| == 17 && forall i | 0 <= i < 17 :: if i % 3 == 2 then s[i] == ':' else IsHex(s[i])
  }

  /** Two hexadecimal digits. */
  predicate IsPair(p: string) {
    |p| == 2 && forall i | 0 <= i < 2 :: p[i] in "0123456789abcdef"
  }

  function Joined(a: string, b: string, c: string, d: string, e: string, f: string): string {
    a + ":" + b + ":" + c + ":" + d + ":" + e + ":" + f
  }

  /** The text is six such pairs with colons in between. */
  ghost predicate IsMacText(s: string) {
    exists a, b, c, d, e, f | IsPair(a) && IsPair(b) && IsPair(c) && IsPair(d) && IsPair(e) && IsPair(f) ::
      s == Joined(a, b, c, d, e, f)
  }

  lemma HexByText(c: char)
    ensures IsHex(c) <==> c in "0123456789abcdef"
  {
    var digits := "0123456789abcdef";
    if '0' <= c <= '9' {
      assert digits[c as int - '0' as int] == c;
    } else if 'a' <= c <= 'f' {
      assert digits[10 + c as int - 'a' as int] == c;
    }
  }

  lemma PairByText(p: string)
    ensures IsPair(p) <==> |p| == 2 && IsHex(p[0]) && IsHex(p[1])
  {
    if |p| == 2 {
      HexByText(p[0]);
      HexByText(p[1]);
      if IsPair(p) {
        assert p[0] in "0123456789abcdef" && p[1] in "0123456789abcdef";
      }
    }
  }

  lemma JoinedAt(a: string, b: string, c: string, d: string, e: string, f: string)
    requires |a| == 2 && |b| == 2 && |c| == 2 && |d| == 2 && |e| == 2 && |f| == 2
    ensures var s := Joined(a, b, c, d, e, f);
            && |s| == 17 && s[..2] == a && s[3..5] == b && s[6..8] == c
            && s[9..11] == d && s[12..14] == e && s[15..] == f
            && s[2] == s[5] == s[8] == s[11] == s[14] == ':'
  {
  }

  /** A MAC by its six parts. */
  lemma MacByParts(s: string)
    requires |s| == 17
    ensures IsMac(s) <==>
              && IsPair(s[..2]) && IsPair(s[3..5]) && IsPair(s[6..8])
              && IsPair(s[9..11]) && IsPair(s[12..14]) && IsPair(s[15..])
              && s[2] == s[5] == s[8] == s[11] == s[14] == ':'
  {
    PairByText(s[..2]);
    PairByText(s[3..5]);
    PairByText(s[6..8]);
    PairByText(s[9..11]);
    PairByText(s[12..14]);
    PairByText(s[15..]);
    hide IsHex, IsPair;
    MacCharByChar(s);
  }

  lemma MacCharByChar(s: string)
    requires |s| == 17
    ensures IsMac(s) <==>
              && IsHex(s[0]) && IsHex(s[1]) && s[2] == ':' && IsHex(s[3]) && IsHex(s[4]) && s[5] == ':'
              && IsHex(s[6]) && IsHex(s[7]) && s[8] == ':' && IsHex(s[9]) && IsHex(s[10]) && s[11] == ':'
              && IsHex(s[12]) && IsHex(s[13]) && s[14] == ':' && IsHex(s[15]) && IsHex(s[16])
  {
    hide IsHex;
    if IsMac(s) {
      assert IsHex(s[0]) && IsHex(s[1]) && s[2] == ':' && IsHex(s[3]) && IsHex(s[4]) && s[5] == ':';
    }
  }

  lemma MacByText(s: string)
    ensures IsMac(s) <==> IsMacText(s)
  {
    hide IsHex, IsPair, Joined, IsMac;
    if IsMac(s) {
      IsSeventeen(s);
      MacByParts(s);
      JoinedBack(s);
      assert IsMacText(s);
    }
    if a, b, c, d, e, f :| IsPair(a) && IsPair(b) && IsPair(c) && IsPair(d) && IsPair(e) && IsPair(f)
                           && s == Joined(a, b, c, d, e, f) {
      PairsAreTwo(a, b, c, d, e, f);
      JoinedAt(a, b, c, d, e, f);
      MacByParts(s);
    }
  }

  lemma IsSeventeen(s: string)
    requires IsMac(s)
    ensures |s| == 17
  {
  }

  lemma PairsAreTwo(a: string, b: string, c: string, d: string, e: string, f: string)
    requires IsPair(a) && IsPair(b) && IsPair(c) && IsPair(d) && IsPair(e) && IsPair(f)
    ensures |a| == 2 && |b| == 2 && |c| == 2 && |d| == 2 && |e| == 2 && |f| == 2
  {
  }

  lemma JoinedBack(s: string)
    requires |s| == 17 && s[2] == s[5] == s[8] == s[11] == s[14] == ':'
    ensures s == Joined(s[..2], s[3..5], s[6..8], s[9..11], s[12..14], s[15..])
  {
  }
}
