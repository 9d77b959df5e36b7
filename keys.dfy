/** Store-key builders of the stats logger.  Every key is a queue or metric
    name followed by ':'-separated suffixes, and a second is rendered the
    way Go's `%d` verb renders an integer. */
module Keys {

  predicate IsDigit(c: char) {
    '0' <= c <= '9'
  }

  function DigitChar(d: nat): (c: char)
    requires d < 10
    ensures IsDigit(c) && c as int - '0' as int == d
  {
    ('0' as int + d) as char
  }

  /** Decimal digits of `n`, most significant first, without leading zeros. */
  function NatDigits(n: nat): (s: string)
    ensures |s| >= 1
    ensures forall i :: 0 <= i < |s| ==> IsDigit(s[i])
    ensures s[0] == '0' <==> n == 0
    decreases n
  {
    if n < 10 then [DigitChar(n)] else NatDigits(n / 10) + [DigitChar(n % 10)]
  }

  /** The `%d` rendering of a (64-bit, here unbounded) integer: a leading '-'
      for negatives, then the digits of the magnitude. */
  function Decimal(n: int): string {
    if n < 0 then "-" + NatDigits(-n) else NatDigits(n)
  }

  /** Value of a string of decimal digits; the reading that inverts NatDigits. */
  function DigitsValue(s: string): int {
    if s == [] then 0 else DigitsValue(s[..|s| - 1]) * 10 + (s[|s| - 1] as int - '0' as int)
  }

  /** Reads back what Decimal writes. */
  function ParseDecimal(s: string): int {
    if |s| > 0 && s[0] == '-' then -DigitsValue(s[1..]) else DigitsValue(s)
  }

  function PushStatsKey(qname: string): string {
    qname + ":push"
  }

  function PopStatsKey(qname: string): string {
    qname + ":pop"
  }

  function AckStatsKey(qname: string): string {
    qname + ":ack"
  }

  /** Key of the counter `sname` for one second. */
  function SecStatsKey(sname: string, sec: int): string {
    sname + ":" + Decimal(sec)
  }

  /** Key of the queue-size snapshot of queue `qname` for one second. */
  function SecQueueSizeKey(qname: string, sec: int): string {
    qname + ":size:" + Decimal(sec)
  }

  lemma {:induction false} DigitsRoundTrip(n: nat)
    ensures DigitsValue(NatDigits(n)) == n
    decreases n
  {
    if n >= 10 {
      var s := NatDigits(n);
      assert s[..|s| - 1] == NatDigits(n / 10);
      DigitsRoundTrip(n / 10);
    }
  }

  /** Decimal is a rendering that can be read back. */
  lemma DecimalRoundTrip(n: int)
    ensures ParseDecimal(Decimal(n)) == n
  {
    if n < 0 {
      assert ("-" + NatDigits(-n))[1..] == NatDigits(-n);
      DigitsRoundTrip(-n);
    } else {
      DigitsRoundTrip(n);
    }
  }

  /** Two seconds render alike only when they are the same second. */
  lemma DecimalInjective(a: int, b: int)
    requires Decimal(a) == Decimal(b)
    ensures a == b
  {
    DecimalRoundTrip(a);
    DecimalRoundTrip(b);
  }

  /** A rendered second is non-empty and holds only digits and a sign. */
  lemma DecimalAlphabet(n: int)
    ensures |Decimal(n)| >= 1
    ensures forall i :: 0 <= i < |Decimal(n)| ==> Decimal(n)[i] == '-' || IsDigit(Decimal(n)[i])
  {
    var d := NatDigits(if n < 0 then -n else n);
    if n < 0 {
      assert forall i :: 1 <= i < |Decimal(n)| ==> Decimal(n)[i] == d[i - 1];
    }
  }

  /** The rendering is Go's canonical one: a '-' exactly for negatives, and
      no leading zero except in the rendering of 0 itself. */
  lemma DecimalCanonical(n: int)
    ensures Decimal(n)[0] == '-' <==> n < 0
    ensures Decimal(n)[0] == '0' <==> n == 0
    ensures n < 0 ==> |Decimal(n)| >= 2 && IsDigit(Decimal(n)[1]) && Decimal(n)[1] != '0'
  {
    if n < 0 {
      assert Decimal(n)[1] == NatDigits(-n)[0];
    }
  }

  /** Past the separating ':', a counter key holds only its rendered second. */
  lemma NoColonInSecond(k: string, n: string, sec: int, p: int)
    requires k == SecStatsKey(n, sec)
    requires |n| < p < |k|
    ensures k[p] != ':'
  {
    DecimalAlphabet(sec);
    assert k[p] == Decimal(sec)[p - |n| - 1];
  }

  /** A counter key determines both its metric name and its second: the
      rendered second holds no ':', so the last ':' of the key separates them. */
  lemma SecStatsKeyInjective(n1: string, s1: int, n2: string, s2: int)
    requires SecStatsKey(n1, s1) == SecStatsKey(n2, s2)
    ensures n1 == n2 && s1 == s2
  {
    var k := SecStatsKey(n1, s1);
    var d1, d2 := Decimal(s1), Decimal(s2);
    DecimalAlphabet(s1);
    DecimalAlphabet(s2);
    if |d1| < |d2| {
      NoColonInSecond(k, n2, s2, |n1|);
      assert false;
    } else if |d2| < |d1| {
      NoColonInSecond(k, n1, s1, |n2|);
      assert false;
    } else {
      assert n1 == k[..|n1|] == n2;
      assert d1 == k[|n1| + 1..] == d2;
      DecimalInjective(s1, s2);
    }
  }

  /** The size key is the counter key of the metric `qname:size`. */
  lemma SizeKeyIsStatsKey(qname: string, sec: int)
    ensures SecQueueSizeKey(qname, sec) == SecStatsKey(qname + ":size", sec)
  {
    assert qname + ":size:" == (qname + ":size") + ":";
  }

  /** Size keys of one queue are distinct for distinct seconds. */
  lemma SizeKeyInjective(qname: string, s1: int, s2: int)
    requires SecQueueSizeKey(qname, s1) == SecQueueSizeKey(qname, s2)
    ensures s1 == s2
  {
    SizeKeyIsStatsKey(qname, s1);
    SizeKeyIsStatsKey(qname, s2);
    SecStatsKeyInjective(qname + ":size", s1, qname + ":size", s2);
  }

  /** The push, pop and ack counters of one queue are three different metrics. */
  lemma StatKeysDistinct(qname: string)
    ensures PushStatsKey(qname) != PopStatsKey(qname)
    ensures PushStatsKey(qname) != AckStatsKey(qname)
    ensures PopStatsKey(qname) != AckStatsKey(qname)
  {
    var n := |qname|;
    assert PushStatsKey(qname)[n + 2] == 'u' && PopStatsKey(qname)[n + 2] == 'o';
    assert PushStatsKey(qname)[n + 1] == 'p' && AckStatsKey(qname)[n + 1] == 'a';
    assert PopStatsKey(qname)[n + 1] == 'p';
  }

  /** No size key of a queue is a push, pop or ack counter key of that queue,
      whatever the two seconds are. */
  lemma SizeKeyNotCounterKey(qname: string, sec: int, sec': int)
    ensures SecQueueSizeKey(qname, sec) != SecStatsKey(PushStatsKey(qname), sec')
    ensures SecQueueSizeKey(qname, sec) != SecStatsKey(PopStatsKey(qname), sec')
    ensures SecQueueSizeKey(qname, sec) != SecStatsKey(AckStatsKey(qname), sec')
  {
    SizeKeyIsStatsKey(qname, sec);
    var n := |qname|;
    var size := qname + ":size";
    assert size[n + 1] == 's';
    assert PushStatsKey(qname)[n + 1] == 'p' && PopStatsKey(qname)[n + 1] == 'p';
    assert AckStatsKey(qname)[n + 1] == 'a';
    if SecQueueSizeKey(qname, sec) == SecStatsKey(PushStatsKey(qname), sec') {
      SecStatsKeyInjective(size, sec, PushStatsKey(qname), sec');
    }
    if SecQueueSizeKey(qname, sec) == SecStatsKey(PopStatsKey(qname), sec') {
      SecStatsKeyInjective(size, sec, PopStatsKey(qname), sec');
    }
    if SecQueueSizeKey(qname, sec) == SecStatsKey(AckStatsKey(qname), sec') {
      SecStatsKeyInjective(size, sec, AckStatsKey(qname), sec');
    }
  }
}
