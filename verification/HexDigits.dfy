/** Numbers in base 16, in digits of either kind, as any writer of a chunk size or an escape may choose them. */
module HexDigits {
  import opened Bytes

  function SmallDigits(): (r: seq<Byte>)
    ensures |r| == 16
  {
    Text("0123456789abcdef")
  }

  function CapitalDigits(): (r: seq<Byte>)
    ensures |r| == 16
  {
    Text("0123456789ABCDEF")
  }

  lemma SmallDigit(d: nat)
    requires d < 16
    ensures SmallDigits()[d] == if d < 10 then 48 + d else 87 + d
  {}

  lemma CapitalDigit(d: nat)
    requires d < 16
    ensures CapitalDigits()[d] == if d < 10 then 48 + d else 55 + d
  {}

  /** The digits of n in base 16, none for 0. */
  function HexText(n: nat, digits: seq<Byte>): seq<Byte>
    requires |digits| == 16
  {
    if n == 0 then [] else HexText(n / 16, digits) + [digits[n % 16]]
  }

  /** The text writes n in base 16: digits of either kind, any number of leading zeros. */
  predicate Spells(t: seq<Byte>, n: nat) {
    if t == [] then n == 0
    else
      && (t[|t| - 1] == SmallDigits()[n % 16] || t[|t| - 1] == CapitalDigits()[n % 16])
      && Spells(t[..|t| - 1], n / 16)
  }

  /** Digits of one kind behind leading zeros spell their number. */
  lemma {:induction false} TextSpells(n: nat, zeros: nat, digits: seq<Byte>)
    requires digits == SmallDigits() || digits == CapitalDigits()
    ensures Spells(Fill(48, zeros) + HexText(n, digits), n)
    decreases n, zeros
  {
    hide SmallDigits, CapitalDigits;
    var t := Fill(48, zeros) + HexText(n, digits);
    if n > 0 {
      TextSpells(n / 16, zeros, digits);
      assert t[..|t| - 1] == Fill(48, zeros) + HexText(n / 16, digits);
    } else if zeros > 0 {
      TextSpells(0, zeros - 1, digits);
      ZeroDigit();
      assert t[..|t| - 1] == Fill(48, zeros - 1) + HexText(0, digits);
      assert t[|t| - 1] == 48;
    } else {
      assert t == [];
    }
  }

  lemma NothingSpells()
    ensures Spells([], 0)
  {}

  /** One more digit behind those of n. */
  lemma SpellsMore(t: seq<Byte>, n: nat, d: nat, c: Byte)
    requires Spells(t, n) && d < 16 && (c == SmallDigits()[d] || c == CapitalDigits()[d])
    ensures Spells(t + [c], n * 16 + d)
  {
    hide SmallDigits, CapitalDigits;
    assert (t + [c])[..|t|] == t;
  }

  lemma ZeroDigit()
    ensures SmallDigits()[0] == 48
  {}
}
