/** Decimal numerals: canonical and zero-padded printing, reading, and their order. */
module Decimal {
  type digit = d: int | 0 <= d < 10

  function Digits(n: nat): (ds: seq<digit>)
    ensures |ds| >= 1
  {
    if n < 10 then [n] else Digits(n / 10) + [n % 10]
  }

  function Value(ds: seq<digit>): (n: nat) {
    if ds == [] then 0 else 10 * Value(ds[..|ds| - 1]) + ds[|ds| - 1]
  }

  predicate Canonical(ds: seq<digit>) {
    |ds| >= 1 && (ds[0] == 0 ==> |ds| == 1)
  }

  lemma {:induction false} ReadPrinted(n: nat)
    ensures Value(Digits(n)) == n && Canonical(Digits(n)) && (n > 0 ==> Digits(n)[0] != 0)
  {
    if n >= 10 {
      ReadPrinted(n / 10);
      assert Digits(n)[..|Digits(n)| - 1] == Digits(n / 10);
    } else {
      assert [n][..0] == [];
      assert Value([n]) == 10 * Value([n][..0]) + n;
    }
  }

  lemma {:induction false} PrintRead(ds: seq<digit>)
    requires Canonical(ds)
    ensures Digits(Value(ds)) == ds && (|ds| > 1 ==> Value(ds) >= 10)
  {
    var init, last := ds[..|ds| - 1], ds[|ds| - 1];
    assert ds == init + [last];
    if |ds| > 1 {
      assert init[0] == ds[0];
      PrintRead(init);
      if |init| == 1 {
        assert init[..0] == [] && Value(init) == 10 * Value(init[..0]) + init[0];
      }
    }
  }

  /** `padStart` with zeros to a width that the number fits. */
  function Padded(n: nat, width: nat): (ds: seq<digit>)
    ensures |ds| == width
    decreases width
  {
    if width == 0 then [] else Padded(n / 10, width - 1) + [n % 10]
  }

  function Pow10(k: nat): (p: nat)
    ensures p >= 1
  {
    if k == 0 then 1 else 10 * Pow10(k - 1)
  }

  lemma {:induction false} ReadPadded(n: nat, width: nat)
    requires n < Pow10(width)
    ensures Value(Padded(n, width)) == n
    decreases width
  {
    if width > 0 {
      ReadPadded(n / 10, width - 1);
      assert Padded(n, width)[..width - 1] == Padded(n / 10, width - 1);
    }
  }

  lemma {:induction false} PadRead(ds: seq<digit>)
    ensures Value(ds) < Pow10(|ds|) && Padded(Value(ds), |ds|) == ds
  {
    if ds != [] {
      PadRead(ds[..|ds| - 1]);
      assert ds == ds[..|ds| - 1] + [ds[|ds| - 1]];
    }
  }

  // ---- As text.

  function Show(ds: seq<digit>): (s: string)
    ensures |s| == |ds| && forall i :: 0 <= i < |s| ==> s[i] == '0' + ds[i] as char
  {
    seq(|ds|, i requires 0 <= i < |ds| => '0' + ds[i] as char)
  }

  predicate IsDigit(c: char) { '0' <= c <= '9' }

  predicate AllDigits(s: string) { forall i :: 0 <= i < |s| ==> IsDigit(s[i]) }

  function Read(s: string): (ds: seq<digit>)
    requires AllDigits(s)
    ensures |ds| == |s| && forall i :: 0 <= i < |s| ==> ds[i] == s[i] as int - '0' as int
  {
    seq(|s|, i requires 0 <= i < |s| => s[i] as int - '0' as int)
  }

  lemma ReadShow(ds: seq<digit>)
    ensures AllDigits(Show(ds)) && Read(Show(ds)) == ds
  {
  }

  lemma ShowRead(s: string)
    requires AllDigits(s)
    ensures Show(Read(s)) == s
  {
  }

  function Number(s: string): (n: nat)
    requires AllDigits(s)
  {
    Value(Read(s))
  }

  function Text(n: nat): (s: string)
    ensures |s| >= 1 && AllDigits(s)
  {
    ReadShow(Digits(n));
    Show(Digits(n))
  }

  function PaddedText(n: nat, width: nat): (s: string)
    ensures |s| == width && AllDigits(s)
  {
    ReadShow(Padded(n, width));
    Show(Padded(n, width))
  }

  lemma NumberOfText(n: nat)
    ensures Number(Text(n)) == n && (Text(n)[0] == '0' ==> |Text(n)| == 1)
  {
    ReadShow(Digits(n));
    ReadPrinted(n);
  }

  lemma NumberOfPadded(n: nat, width: nat)
    requires n < Pow10(width)
    ensures Number(PaddedText(n, width)) == n
  {
    ReadShow(Padded(n, width));
    ReadPadded(n, width);
  }

  lemma PaddedOfNumber(s: string)
    requires AllDigits(s)
    ensures Number(s) < Pow10(|s|) && PaddedText(Number(s), |s|) == s
  {
    PadRead(Read(s));
    ShowRead(s);
  }
}
