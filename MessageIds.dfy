/**
 Message ids of the newer server: `"msg-"` followed by the decimal value of a
 process-wide counter. The decimal rendering has an inverse, so distinct
 counter values give distinct ids.
 */
module MessageIds {

  const Prefix: string := "msg-"

  function DigitChar(d: nat): (c: char)
    requires d < 10
    ensures '0' <= c <= '9'
  {
    "0123456789"[d]
  }

  function DigitValue(c: char): nat
  {
    if '0' <= c <= '9' then (c as int - '0' as int) as nat else 0
  }

  /** The decimal rendering JavaScript gives a non-negative integer. */
  function Decimal(n: nat): (s: string)
    ensures |s| > 0
    ensures forall i :: 0 <= i < |s| ==> '0' <= s[i] <= '9'
  {
    if n < 10 then [DigitChar(n)] else Decimal(n / 10) + [DigitChar(n % 10)]
  }

  /** Reads a string of decimal digits back as a number. */
  function ParseDecimal(s: string): nat
  {
    if s == [] then 0 else ParseDecimal(s[..|s| - 1]) * 10 + DigitValue(s[|s| - 1])
  }

  /** The id the counter value `n` is rendered as (`msg-${n}`). */
  function MsgId(n: nat): (id: string)
    ensures |id| > |Prefix| && id[..|Prefix|] == Prefix
  {
    Prefix + Decimal(n)
  }

  /** The counter value an id was made from. */
  function IdNumber(id: string): nat
  {
    if |id| >= |Prefix| then ParseDecimal(id[|Prefix|..]) else 0
  }

  lemma DigitRoundTrip(d: nat)
    requires d < 10
    ensures DigitValue(DigitChar(d)) == d
  {
  }

  /** Parsing the decimal rendering gives the number back. */
  lemma {:induction false} DecimalRoundTrip(n: nat)
    ensures ParseDecimal(Decimal(n)) == n
  {
    var s := Decimal(n);
    if n < 10 {
      DigitRoundTrip(n);
      assert s[..|s| - 1] == [];
    } else {
      DecimalRoundTrip(n / 10);
      DigitRoundTrip(n % 10);
      assert s[..|s| - 1] == Decimal(n / 10);
    }
  }

  /** Every id issued can be read back to the counter value it came from. */
  lemma IdRoundTrip(n: nat)
    ensures IdNumber(MsgId(n)) == n
  {
    assert MsgId(n)[|Prefix|..] == Decimal(n);
    DecimalRoundTrip(n);
  }

  /** Ids made from different counter values differ. */
  lemma MsgIdInjective(a: nat, b: nat)
    ensures MsgId(a) == MsgId(b) <==> a == b
  {
    if MsgId(a) == MsgId(b) {
      IdRoundTrip(a);
      IdRoundTrip(b);
    }
  }
}
