/** The cold tier's layout: hours and days as partitions of time, and the time inside an id. */
module Layout {
  import opened Entries

  const HOUR_MS: int := 3_600_000
  const DAY_MS: int := 86_400_000

  /** Where a row is archived: its type, and the hour it falls in. */
  datatype Partition = Partition(kind: string, hourStart: int)

  /** Dafny's `/` floors for a positive divisor, as `Math.floor(at / HOUR_MS)` does. */
  function FloorHour(at: int): int { at / 3_600_000 * 3_600_000 }

  function FloorDay(at: int): int { at / 86_400_000 * 86_400_000 }

  function PartitionOf(e: Entry): Partition { Partition(e.kind, FloorHour(e.at)) }

  /** Hours and days partition time, and every hour lies inside its day. */
  lemma FloorFacts(at: int)
    ensures FloorHour(at) <= at < FloorHour(at) + HOUR_MS
    ensures FloorDay(at) <= at < FloorDay(at) + DAY_MS
    ensures FloorDay(FloorHour(at)) == FloorDay(at)
    ensures FloorHour(at) == at ==> FloorDay(at) <= at <= FloorDay(at) + DAY_MS - HOUR_MS
  {
  }

  /** Hours and days begin at whole hours and days since the epoch. */
  lemma FloorWhole(at: int)
    ensures FloorHour(at) % 3_600_000 == 0 && FloorDay(at) % 86_400_000 == 0
  {
    var hours, days := at / 3_600_000, at / 86_400_000;
    assert (hours * 3_600_000) % 3_600_000 == 0;
    assert (days * 86_400_000) % 86_400_000 == 0;
  }

  // ---------------------------------------------------------------- UUIDv7

  predicate IsHex(c: char) { '0' <= c <= '9' || 'a' <= c <= 'f' || 'A' <= c <= 'F' }

  function HexValue(c: char): (v: int)
    requires IsHex(c)
    ensures 0 <= v < 16
  {
    if '0' <= c <= '9' then (c - '0') as int
    else if 'a' <= c <= 'f' then (c - 'a') as int + 10
    else (c - 'A') as int + 10
  }

  predicate AllHex(s: string) { forall i :: 0 <= i < |s| ==> IsHex(s[i]) }

  /** `parseInt(s, 16)` of a string of hexadecimal digits. */
  function ParseHex(s: string): (v: int)
    requires AllHex(s)
    ensures v >= 0
  {
    if s == "" then 0 else ParseHex(s[..|s| - 1]) * 16 + HexValue(s[|s| - 1])
  }

  /** The shape of a version 7 UUID (section 5.7 of RFC 9562), in either case. */
  predicate IsUuidV7(id: string) {
    && |id| == 36
    && id[8] == '-' && id[13] == '-' && id[18] == '-' && id[23] == '-'
    && (forall i :: 0 <= i < 36 && i !in {8, 13, 18, 23} ==> IsHex(id[i]))
    && id[14] == '7' && id[19] in {'8', '9', 'a', 'b', 'A', 'B'}
  }

  /** The first 48 bits of a UUIDv7, a time in milliseconds; an id of another form has none. */
  function UuidV7Time(id: string): Option<int> {
    if IsUuidV7(id) then Some(ParseHex(id[..8] + id[9..13])) else None
  }

  function HexDigit(v: int): (c: char)
    requires 0 <= v < 16
    ensures IsHex(c) && HexValue(c) == v
  {
    if v < 10 then '0' + v as char else 'a' + (v - 10) as char
  }

  /** `width` hexadecimal digits of `n`, most significant first. */
  function HexDigits(n: int, width: nat): (s: string)
    requires n >= 0
    ensures |s| == width && AllHex(s)
  {
    if width == 0 then "" else HexDigits(n / 16, width - 1) + [HexDigit(n % 16)]
  }

  function Pow16(width: nat): int { if width == 0 then 1 else 16 * Pow16(width - 1) }

  lemma {:induction false} ParseHexDigits(n: int, width: nat)
    requires 0 <= n < Pow16(width)
    ensures ParseHex(HexDigits(n, width)) == n
  {
    if width > 0 {
      ParseHexDigits(n / 16, width - 1);
      var s := HexDigits(n, width);
      assert s[..|s| - 1] == HexDigits(n / 16, width - 1);
    }
  }

  /** An id whose 48-bit timestamp field holds `ms` is read back as `ms`. */
  lemma UuidV7RoundTrip(id: string, ms: int)
    requires IsUuidV7(id) && 0 <= ms < Pow16(12)
    requires id[..8] + id[9..13] == HexDigits(ms, 12)
    ensures UuidV7Time(id) == Some(ms)
  {
    ParseHexDigits(ms, 12);
  }
}
