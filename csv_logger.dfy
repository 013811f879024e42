/**
 * csv_logger.py's `int_to_uid`: the integer a door reports for a key, back into
 * the `upper:lower` text `update_door.py` reads.
 */
module CsvLogger {
  import opened Wrappers
  import opened PyText
  import opened UpdateDoor

  /** `(x & 0xFFFF0000) >> 16` on Python's unbounded two's-complement integers: bits 16 to 31. */
  function Upper(x: int): (u: int)
    ensures 0 <= u < 65536
  {
    (x % 0x1_0000_0000) / 65536
  }

  /** `x & 0xFFFF`: bits 0 to 15. */
  function Lower(x: int): (l: int)
    ensures 0 <= l < 65536
  {
    x % 65536
  }

  /** The two halves put back together give the low 32 bits of `x`; higher bits are discarded. */
  lemma HalvesOfLow32(x: int)
    ensures Pack(Upper(x), Lower(x)) == x % 0x1_0000_0000
    ensures 0 <= x < 0x1_0000_0000 ==> Pack(Upper(x), Lower(x)) == x
  {
    var m := x % 0x1_0000_0000;
    assert m % 65536 == x % 65536 by {
      assert x == (x / 0x1_0000_0000) * 0x1_0000_0000 + m;
      assert 0x1_0000_0000 == 65536 * 65536;
    }
  }

  /** Adding a multiple of 2^32 changes neither half. */
  lemma HighBitsDiscarded(x: int, k: int)
    ensures Upper(x + k * 0x1_0000_0000) == Upper(x) && Lower(x + k * 0x1_0000_0000) == Lower(x)
  {
    assert (x + k * 0x1_0000_0000) % 0x1_0000_0000 == x % 0x1_0000_0000;
    assert k * 0x1_0000_0000 == (k * 65536) * 65536;
  }

  /** `int_to_uid`: `f'{upper:05d}:{lower:05d}'`. */
  function IntToUid(x: int): (s: string)
    ensures |s| == 11 && s[5] == ':'
    ensures AllDigits(s[..5]) && AllDigits(s[6..])
    ensures DigitsValue(s[..5]) == Upper(x) && DigitsValue(s[6..]) == Lower(x)
  {
    assert Pow10(5) == 100000;
    var a := FormatInt(Upper(x), 5);
    var b := FormatInt(Lower(x), 5);
    assert DigitsValue(a) == Upper(x) by {
      FormatIntRoundTrip(Upper(x), 5);
      ParseDigits(a);
    }
    assert DigitsValue(b) == Lower(x) by {
      FormatIntRoundTrip(Lower(x), 5);
      ParseDigits(b);
    }
    var s := a + ":" + b;
    assert s[..5] == a && s[6..] == b;
    s
  }

  /**
   * `uid_to_int(int_to_uid(x))` gives back the low 32 bits of `x`, so `x` itself for
   * every `x` in [0, 2^32).
   */
  lemma UidRoundTrip(x: int)
    ensures UidToInt(IntToUid(x)) == Ok(x % 0x1_0000_0000)
    ensures 0 <= x < 0x1_0000_0000 ==> UidToInt(IntToUid(x)) == Ok(x)
  {
    var a := FormatInt(Upper(x), 5);
    var b := FormatInt(Lower(x), 5);
    assert ':' !in a && ':' !in b by {
      assert forall i :: 0 <= i < |a| ==> IsDigit(a[i]);
      assert forall i :: 0 <= i < |b| ==> IsDigit(b[i]);
    }
    FormatIntRoundTrip(Upper(x), 5);
    FormatIntRoundTrip(Lower(x), 5);
    UidOfHalves(a, b);
    HalvesOfLow32(x);
  }

  /** Distinct integers in [0, 2^32) get distinct uid texts. */
  lemma IntToUidInjective(x: int, y: int)
    requires 0 <= x < 0x1_0000_0000 && 0 <= y < 0x1_0000_0000
    ensures IntToUid(x) == IntToUid(y) <==> x == y
  {
    UidRoundTrip(x);
    UidRoundTrip(y);
  }
}
