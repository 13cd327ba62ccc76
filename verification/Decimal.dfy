/** Decimal numerals: printing, reading, padding and trimming. */
module Decimal {

  predicate IsDigit(c: char) {
    '0' <= c <= '9'
  }

  predicate IsNumeral(s: string) {
    s != [] && forall i | 0 <= i < |s| :: IsDigit(s[i])
  }

  function DigitOf(n: nat): char
    requires n < 10
  {
    '0' + n as char
  }

  function ValueOf(c: char): nat
    requires IsDigit(c)
  {
    c as int - '0' as int
  }

  function Print(n: nat): (s: string)
    ensures IsNumeral(s)
    ensures s[0] == '0' <==> n == 0
    ensures s[0] == '0' ==> s == "0"
  {
    if n < 10 then [DigitOf(n)] else Print(n / 10) + [DigitOf(n % 10)]
  }

  function Read(s: string): nat
    requires forall i | 0 <= i < |s| :: IsDigit(s[i])
  {
    if s == [] then 0 else Read(s[..|s| - 1]) * 10 + ValueOf(s[|s| - 1])
  }

  lemma {:induction false} ReadOfPrint(n: nat)
    ensures Read(Print(n)) == n
  {
    if n >= 10 {
      ReadOfPrint(n / 10);
      assert Print(n)[..|Print(n)| - 1] == Print(n / 10);
    }
  }

  /** A numeral without a leading zero is read as a positive number, unless it is the zero. */
  lemma {:induction false} ReadIsPositive(s: string)
    requires IsNumeral(s) && s[0] != '0'
    ensures Read(s) > 0
  {
    if |s| > 1 {
      ReadIsPositive(s[..|s| - 1]);
    }
  }

  lemma {:induction false} PrintOfRead(s: string)
    requires IsNumeral(s) && (s[0] == '0' ==> |s| == 1)
    ensures Print(Read(s)) == s
  {
    if |s| > 1 {
      var p := s[..|s| - 1];
      PrintOfRead(p);
      ReadIsPositive(p);
      assert s == p + [s[|s| - 1]];
    }
  }

  function StripLeading(s: string): (r: string)
    requires IsNumeral(s)
    ensures IsNumeral(r) && (r[0] == '0' ==> |r| == 1) && |r| <= |s|
  {
    if |s| > 1 && s[0] == '0' then StripLeading(s[1..]) else s
  }

  lemma {:induction false} LeadingZeroIsNothing(s: string)
    requires forall i | 0 <= i < |s| :: IsDigit(s[i])
    ensures Read(['0'] + s) == Read(s)
  {
    if s != [] {
      LeadingZeroIsNothing(s[..|s| - 1]);
      assert (['0'] + s)[..|s|] == ['0'] + s[..|s| - 1];
    }
  }

  /** Printing what was read only drops leading zeros. */
  lemma {:induction false} PrintOfReadStrips(s: string)
    requires IsNumeral(s)
    ensures Print(Read(s)) == StripLeading(s)
  {
    if |s| > 1 && s[0] == '0' {
      PrintOfReadStrips(s[1..]);
      LeadingZeroIsNothing(s[1..]);
      assert s == ['0'] + s[1..];
    } else {
      PrintOfRead(s);
    }
  }

  function PadStart(s: string, n: nat): string
    decreases n - |s|
  {
    if |s| < n then PadStart(['0'] + s, n) else s
  }

  function PadEnd(s: string, n: nat): (r: string)
    ensures |s| <= n ==> |r| == n
    ensures (forall i | 0 <= i < |s| :: IsDigit(s[i])) ==> forall i | 0 <= i < |r| :: IsDigit(r[i])
    decreases n - |s|
  {
    if |s| < n then PadEnd(s + ['0'], n) else s
  }

  function TrimTrailing(s: string): string {
    if s != [] && s[|s| - 1] == '0' then TrimTrailing(s[..|s| - 1]) else s
  }

  /** Padding puts the dropped leading zeros back. */
  lemma {:induction false} PaddingUndoesStripping(s: string)
    requires IsNumeral(s)
    ensures PadStart(StripLeading(s), |s|) == s
  {
    if |s| > 1 && s[0] == '0' {
      PaddingUndoesStripping(s[1..]);
      PadOneMore(StripLeading(s[1..]), |s| - 1);
      assert s == ['0'] + s[1..];
    }
  }

  lemma {:induction false} PadOneMore(s: string, n: nat)
    requires |s| <= n
    ensures PadStart(s, n + 1) == ['0'] + PadStart(s, n)
    decreases n - |s|
  {
    if |s| < n {
      PadOneMore(['0'] + s, n);
    } else {
      assert PadStart(['0'] + s, n + 1) == ['0'] + s;
    }
  }

  /** Trimming undoes padding at the end of anything that does not end in a zero. */
  lemma {:induction false} TrimmingUndoesPadding(s: string, n: nat)
    requires s == [] || s[|s| - 1] != '0'
    ensures TrimTrailing(PadEnd(s, n)) == s
  {
    if |s| < n {
      TrimPadded(s, n);
    }
  }

  lemma {:induction false} TrimPadded(s: string, n: nat)
    ensures TrimTrailing(PadEnd(s, n)) == TrimTrailing(s)
    decreases n - |s|
  {
    if |s| < n {
      TrimPadded(s + ['0'], n);
      assert (s + ['0'])[..|s|] == s;
    }
  }

  /** Padding undoes trimming. */
  lemma {:induction false} PaddingUndoesTrimming(s: string)
    ensures |TrimTrailing(s)| <= |s| && PadEnd(TrimTrailing(s), |s|) == s
    ensures TrimTrailing(s) == [] || TrimTrailing(s)[|TrimTrailing(s)| - 1] != '0'
    ensures TrimTrailing(s) <= s
  {
    if s != [] && s[|s| - 1] == '0' {
      var p := s[..|s| - 1];
      PaddingUndoesTrimming(p);
      PadEndOneMore(TrimTrailing(p), |p|);
      assert s == p + ['0'];
    }
  }

  lemma {:induction false} PadEndOneMore(s: string, n: nat)
    requires |s| <= n
    ensures PadEnd(s, n + 1) == PadEnd(s, n) + ['0']
    decreases n - |s|
  {
    if |s| < n {
      PadEndOneMore(s + ['0'], n);
    } else {
      assert PadEnd(s + ['0'], n + 1) == s + ['0'];
    }
  }

  /** Padding a printed number at the start keeps its value and reaches the width. */
  lemma {:induction false} ReadOfPadded(s: string, n: nat)
    requires IsNumeral(s) && |s| <= n
    ensures IsNumeral(PadStart(s, n)) && |PadStart(s, n)| == n && Read(PadStart(s, n)) == Read(s)
    decreases n - |s|
  {
    if |s| < n {
      LeadingZeroIsNothing(s);
      ReadOfPadded(['0'] + s, n);
    }
  }

  lemma ThreeDigits(n: nat)
    requires n < 1000
    ensures |Print(n)| <= 3
  {
    assert |Print(n / 10 / 10)| <= 1;
    assert |Print(n / 10)| <= 2;
  }

  /** The position of the first point, or the length. */
  function PointAt(s: string): (i: nat)
    ensures i <= |s| && (i < |s| ==> s[i] == '.') && '.' !in s[..i]
  {
    if s == [] || s[0] == '.' then 0
    else
      var rest := PointAt(s[1..]);
      assert s[..rest + 1] == [s[0]] + s[1..][..rest];
      1 + rest
  }

  lemma {:induction false} PointAfterDigits(whole: string, rest: string)
    requires forall i | 0 <= i < |whole| :: IsDigit(whole[i])
    requires rest == [] || rest[0] == '.'
    ensures PointAt(whole + rest) == |whole|
  {
    if whole == [] {
      assert whole + rest == rest;
    } else {
      assert (whole + rest)[1..] == whole[1..] + rest;
      PointAfterDigits(whole[1..], rest);
    }
  }
}
