/**
  The lexicographic key codec of the Redis indexes: `inv(createdAt):id`, with
  `inv = MAX_MS - createdAt` padded to a fixed width, so that string order is newest first.
 */
module LexKey {
  import opened Entries

  const WIDTH: nat := 15
  const MAX_MS: int := 999_999_999_999_999

  predicate InRange(at: int) { 0 <= at <= MAX_MS }

  function Digit(d: nat): char
    requires d < 10
  {
    "0123456789"[d]
  }

  /** `toString` of a non-negative integer. */
  function Decimal(n: nat): string {
    if n < 10 then [Digit(n)] else Decimal(n / 10) + [Digit(n % 10)]
  }

  function ToString(n: int): string { if n < 0 then "-" + Decimal(-n) else Decimal(n) }

  function Zeros(n: nat): string { seq(n, _ => '0') }

  function PadStart(s: string, width: nat): string {
    if |s| >= width then s else Zeros(width - |s|) + s
  }

  /** A later instant has a smaller string, as far as the width reaches. */
  function InvBound(at: int): string { PadStart(ToString(MAX_MS - at), WIDTH) }

  /** Newest-first lex member. */
  function LexMember(at: int, id: string): string { InvBound(at) + ":" + id }

  /** `indexOf`, -1 when the character does not occur. */
  function IndexOf(s: string, c: char): (i: int)
    ensures -1 <= i < |s|
  {
    if s == "" then -1
    else if s[0] == c then 0
    else var i := IndexOf(s[1..], c); if i < 0 then -1 else i + 1
  }

  /** Everything after the first `:`. */
  function IdFromMember(member: string): string { member[IndexOf(member, ':') + 1..] }

  /** Everything before the first `:`. */
  function InvOf(member: string): string
    requires IndexOf(member, ':') >= 0
  {
    member[..IndexOf(member, ':')]
  }

  // ---------------------------------------------------------------- fixed-width numbers

  function Pow10(w: nat): nat { if w == 0 then 1 else 10 * Pow10(w - 1) }

  /** The `w` last decimal digits of a number. */
  function Fixed(n: nat, w: nat): (s: string)
    ensures |s| == w
  {
    if w == 0 then "" else Fixed(n / 10, w - 1) + [Digit(n % 10)]
  }

  lemma {:induction false} FixedZero(w: nat)
    ensures Fixed(0, w) == Zeros(w)
  {
    if w > 0 { FixedZero(w - 1); }
  }

  /** Padding a number that fits gives exactly its fixed-width digits. */
  lemma {:induction false} PaddedIsFixed(n: nat, w: nat)
    requires n < Pow10(w) && w >= 1
    ensures |Decimal(n)| <= w && PadStart(Decimal(n), w) == Fixed(n, w)
  {
    if n < 10 {
      FixedZero(w - 1);
    } else {
      assert w >= 2;
      PaddedIsFixed(n / 10, w - 1);
    }
  }

  predicate IsDigit(c: char) { '0' <= c <= '9' }

  lemma {:induction false} FixedDigits(n: nat, w: nat)
    ensures forall c :: c in Fixed(n, w) ==> IsDigit(c)
  {
    if w > 0 { FixedDigits(n / 10, w - 1); }
  }

  lemma {:induction false} DecimalDigits(n: nat)
    ensures forall c :: c in Decimal(n) ==> IsDigit(c)
  {
    if n >= 10 { DecimalDigits(n / 10); }
  }

  /** Appending to strings of one length: the first difference decides. */
  lemma {:induction false} LessAppend(a: string, b: string, x: string, y: string)
    requires |a| == |b|
    ensures Less(a + x, b + y) <==> Less(a, b) || (a == b && Less(x, y))
  {
    if a == "" {
      assert a + x == x && b + y == y;
    } else {
      LessAppend(a[1..], b[1..], x, y);
      assert (a + x)[1..] == a[1..] + x && (b + y)[1..] == b[1..] + y;
      assert a == [a[0]] + a[1..] && b == [b[0]] + b[1..];
    }
  }

  /** On fixed-width digits string order is number order. */
  lemma {:induction false} FixedOrder(m: nat, n: nat, w: nat)
    requires m < Pow10(w) && n < Pow10(w)
    ensures Less(Fixed(m, w), Fixed(n, w)) <==> m < n
    ensures Fixed(m, w) == Fixed(n, w) <==> m == n
  {
    if w > 0 {
      FixedOrder(m / 10, n / 10, w - 1);
      LessAppend(Fixed(m / 10, w - 1), Fixed(n / 10, w - 1), [Digit(m % 10)], [Digit(n % 10)]);
      DigitOrder(m % 10, n % 10);
      var s, t := Fixed(m, w), Fixed(n, w);
      assert s[..w - 1] == Fixed(m / 10, w - 1) && t[..w - 1] == Fixed(n / 10, w - 1);
      assert s[w - 1] == Digit(m % 10) && t[w - 1] == Digit(n % 10);
    }
  }

  lemma DigitOrder(c: nat, d: nat)
    requires c < 10 && d < 10
    ensures Digit(c) < Digit(d) <==> c < d
    ensures Less([Digit(c)], [Digit(d)]) <==> c < d
    ensures Digit(c) == Digit(d) <==> c == d
  {
  }

  lemma Pow15()
    ensures Pow10(15) == MAX_MS + 1
  {
    assert Pow10(5) == 100_000;
    assert Pow10(10) == 100_000 * Pow10(5);
    assert Pow10(15) == 100_000 * Pow10(10);
  }

  lemma InvIsFixed(at: int)
    requires InRange(at)
    ensures InvBound(at) == Fixed(MAX_MS - at, WIDTH) && |InvBound(at)| == WIDTH
    ensures forall c :: c in InvBound(at) ==> IsDigit(c)
  {
    Pow15();
    PaddedIsFixed(MAX_MS - at, WIDTH);
    FixedDigits(MAX_MS - at, WIDTH);
  }

  // ---------------------------------------------------------------- the codec

  /** Inverses order as strings against time, and differ exactly when the times do. */
  lemma InvOrder(at: int, at2: int)
    requires InRange(at) && InRange(at2)
    ensures Less(InvBound(at), InvBound(at2)) <==> at > at2
    ensures InvBound(at) == InvBound(at2) <==> at == at2
  {
    Pow15();
    InvIsFixed(at);
    InvIsFixed(at2);
    FixedOrder(MAX_MS - at, MAX_MS - at2, WIDTH);
  }

  lemma MemberParts(inv: string, id: string, inv2: string, id2: string)
    requires |inv| == |inv2|
    ensures Less(inv + ":" + id, inv2 + ":" + id2) <==> Less(inv, inv2) || (inv == inv2 && Less(id, id2))
  {
    assert inv + ":" + id == inv + (":" + id) && inv2 + ":" + id2 == inv2 + (":" + id2);
    LessAppend(inv, inv2, ":" + id, ":" + id2);
    LessAppend(":", ":", id, id2);
  }

  /** Members sort newest first, and by ascending id within one millisecond. */
  lemma MemberOrder(at: int, id: string, at2: int, id2: string)
    requires InRange(at) && InRange(at2)
    ensures Less(LexMember(at, id), LexMember(at2, id2)) <==> at > at2 || (at == at2 && Less(id, id2))
  {
    InvIsFixed(at);
    InvIsFixed(at2);
    InvOrder(at, at2);
    MemberParts(InvBound(at), id, InvBound(at2), id2);
  }

  lemma {:induction false} FirstColon(digits: string, id: string)
    requires ':' !in digits
    ensures IndexOf(digits + ":" + id, ':') == |digits|
  {
    var s := digits + ":" + id;
    if digits != "" {
      FirstColon(digits[1..], id);
      assert s[1..] == digits[1..] + ":" + id && s[0] == digits[0];
      assert digits[0] in digits;
    } else {
      assert s[0] == ':';
    }
  }

  /** What precedes a member's first `:` is its millisecond's prefix. */
  lemma MemberDecodes(at: int, id: string)
    requires InRange(at)
    ensures IndexOf(LexMember(at, id), ':') == WIDTH && InvOf(LexMember(at, id)) == InvBound(at)
  {
    InvIsFixed(at);
    FirstColon(InvBound(at), id);
  }

  lemma NoColon(at: int)
    ensures ':' !in InvBound(at)
  {
    DecimalDigits(if at > MAX_MS then at - MAX_MS else MAX_MS - at);
  }

  /** `idFromMember` inverts `lexMember` for every id, even one that holds a `:`, and every instant. */
  lemma IdInverts(at: int, id: string)
    ensures IdFromMember(LexMember(at, id)) == id
  {
    NoColon(at);
    FirstColon(InvBound(at), id);
  }

  // ---------------------------------------------------------------- range bounds

  /** A `ZRANGEBYLEX` bound: `-` or `+`, `[s`, or `(s`. */
  datatype LexBound = Unbounded | Incl(s: string) | Excl(s: string)

  predicate AtLeast(member: string, min: LexBound) {
    match min
    case Unbounded => true
    case Incl(s) => !Less(member, s)
    case Excl(s) => Less(s, member)
  }

  predicate AtMost(member: string, max: LexBound) {
    match max
    case Unbounded => true
    case Incl(s) => !Less(s, member)
    case Excl(s) => Less(member, s)
  }

  function MinBefore(before: Option<int>): LexBound {
    if before.Some? then Incl(InvBound(before.value - 1)) else Unbounded
  }

  function MaxAfter(after: Option<int>): LexBound {
    if after.Some? then Excl(InvBound(after.value)) else Unbounded
  }

  /** Against the inverse of an instant in range, a member sorts by its own instant. */
  lemma AgainstInv(at: int, id: string, bound: int)
    requires InRange(at) && InRange(bound)
    ensures Less(LexMember(at, id), InvBound(bound)) <==> at > bound
    ensures Less(InvBound(bound), LexMember(at, id)) <==> at <= bound
  {
    InvIsFixed(at);
    InvIsFixed(bound);
    InvOrder(at, bound);
    InvOrder(bound, at);
    assert LexMember(at, id) == InvBound(at) + (":" + id) && InvBound(bound) == InvBound(bound) + "";
    LessAppend(InvBound(at), InvBound(bound), ":" + id, "");
    LessAppend(InvBound(bound), InvBound(at), "", ":" + id);
  }

  lemma {:induction false} AfterDash(z: nat, digits: string, tail: string, rest: string)
    requires z < |digits| && forall c :: c in digits ==> IsDigit(c)
    ensures Less(Zeros(z) + ("-" + rest), digits + tail) && !Less(digits + tail, Zeros(z) + ("-" + rest))
  {
    var s, t := Zeros(z) + ("-" + rest), digits + tail;
    assert t[0] == digits[0] && IsDigit(digits[0]);
    if z > 0 {
      AfterDash(z - 1, digits[1..], tail, rest);
      assert s[0] == '0' && s[1..] == Zeros(z - 1) + ("-" + rest) && t[1..] == digits[1..] + tail;
    } else {
      assert s[0] == '-';
    }
  }

  /** The inverse of an instant past the range is negative, and sorts before every member. */
  lemma PastRange(at: int, id: string, bound: int)
    requires InRange(at) && bound > MAX_MS
    ensures Less(InvBound(bound), LexMember(at, id)) && !Less(LexMember(at, id), InvBound(bound))
  {
    InvIsFixed(at);
    NegativeFirst(InvBound(at), id, Decimal(bound - MAX_MS));
  }

  lemma NegativeFirst(inv: string, id: string, digits: string)
    requires |inv| == WIDTH && forall c :: c in inv ==> IsDigit(c)
    ensures Less(PadStart("-" + digits, WIDTH), inv + ":" + id)
    ensures !Less(inv + ":" + id, PadStart("-" + digits, WIDTH))
  {
    var z := PadNegative(digits);
    AfterDash(z, inv, ":" + id, digits);
    assert inv + ":" + id == inv + (":" + id);
  }

  lemma PadNegative(digits: string) returns (z: nat)
    ensures PadStart("-" + digits, WIDTH) == Zeros(z) + ("-" + digits) && z < WIDTH
  {
    z := if |digits| + 1 >= WIDTH then 0 else WIDTH - 1 - |digits|;
    assert Zeros(0) + ("-" + digits) == "-" + digits;
  }

  lemma {:induction false} NinesLast(n: nat, id: string, digits: string)
    requires |digits| > n && forall c :: c in digits ==> IsDigit(c)
    ensures !Less(seq(n, _ => '9') + (":" + id), digits)
  {
    var s := seq(n, _ => '9') + (":" + id);
    assert digits[0] in digits;
    if n > 0 {
      NinesLast(n - 1, id, digits[1..]);
      assert s[0] == '9' && s[1..] == seq(n - 1, _ => '9') + (":" + id);
    } else {
      assert s[0] == ':';
    }
  }

  lemma {:induction false} DecimalLonger(n: nat, w: nat)
    requires n >= Pow10(w)
    ensures |Decimal(n)| > w
  {
    if w > 0 { DecimalLonger(n / 10, w - 1); }
  }

  lemma {:induction false} FixedNines(w: nat)
    ensures Pow10(w) >= 1 && Fixed(Pow10(w) - 1, w) == seq(w, _ => '9')
  {
    if w > 0 { FixedNines(w - 1); }
  }

  lemma EpochInv()
    ensures InvBound(0) == seq(WIDTH, _ => '9')
  {
    Pow15();
    InvIsFixed(0);
    FixedNines(WIDTH);
  }

  lemma LongInv(bound: int)
    requires bound < 0
    ensures |InvBound(bound)| > WIDTH && forall c :: c in InvBound(bound) ==> IsDigit(c)
  {
    var n := MAX_MS - bound;
    Pow15();
    DecimalLonger(n, WIDTH);
    DecimalDigits(n);
    assert InvBound(bound) == Decimal(n);
  }

  /** The inverse of an instant before the epoch has 16 digits, and the oldest member sorts after it. */
  lemma BeforeRange(at: int, id: string, bound: int)
    requires InvBound(at) == seq(WIDTH, _ => '9') && bound < 0
    ensures !Less(LexMember(at, id), InvBound(bound))
  {
    LongInv(bound);
    NinesLast(WIDTH, id, InvBound(bound));
    assert LexMember(at, id) == seq(WIDTH, _ => '9') + (":" + id);
  }

  lemma BeforeSelects(at: int, id: string, before: int)
    requires InRange(at) && before >= 1
    ensures AtLeast(LexMember(at, id), MinBefore(Some(before))) <==> at < before
  {
    if before - 1 <= MAX_MS { AgainstInv(at, id, before - 1); } else { PastRange(at, id, before - 1); }
  }

  lemma AfterSelects(at: int, id: string, after: int)
    requires InRange(at) && after >= 0
    ensures AtMost(LexMember(at, id), MaxAfter(Some(after))) <==> at > after
  {
    if after <= MAX_MS { AgainstInv(at, id, after); } else { PastRange(at, id, after); }
  }

  ghost predicate SelectsBefore(min: LexBound, before: int) {
    forall at: int, id: string :: InRange(at) ==> (AtLeast(LexMember(at, id), min) <==> at < before)
  }

  ghost predicate SelectsAfter(max: LexBound, after: int) {
    forall at: int, id: string :: InRange(at) ==> (AtMost(LexMember(at, id), max) <==> at > after)
  }

  /**
    The `before` bound selects exactly the entries created strictly earlier, if and only if the
    instant is after the epoch.
   */
  lemma BeforeExact(before: int)
    ensures SelectsBefore(MinBefore(Some(before)), before) <==> before >= 1
  {
    if before >= 1 { BeforeHolds(before); } else { BeforeFails(before); }
  }

  lemma BeforeHolds(before: int)
    requires before >= 1
    ensures SelectsBefore(MinBefore(Some(before)), before)
  {
    forall at: int, id: string | InRange(at)
      ensures AtLeast(LexMember(at, id), MinBefore(Some(before))) <==> at < before
    {
      BeforeSelects(at, id, before);
    }
  }

  lemma BeforeFails(before: int)
    requires before < 1
    ensures !SelectsBefore(MinBefore(Some(before)), before)
  {
    var id: string :| true;
    EpochInv();
    OldestSelected(0, id, before);
    RefutesBefore(MinBefore(Some(before)), before, 0, id);
  }

  lemma OldestSelected(at: int, id: string, before: int)
    requires InvBound(at) == seq(WIDTH, _ => '9') && before < 1
    ensures AtLeast(LexMember(at, id), MinBefore(Some(before)))
  {
    BeforeRange(at, id, before - 1);
  }

  lemma RefutesBefore(min: LexBound, before: int, at: int, id: string)
    requires InRange(at) && at >= before && AtLeast(LexMember(at, id), min)
    ensures !SelectsBefore(min, before)
  {
  }

  /**
    The `after` bound selects exactly the entries created strictly later, if and only if the instant
    is not before the epoch.
   */
  lemma AfterExact(after: int)
    ensures SelectsAfter(MaxAfter(Some(after)), after) <==> after >= 0
  {
    if after >= 0 {
      forall at: int, id: string | InRange(at)
        ensures AtMost(LexMember(at, id), MaxAfter(Some(after))) <==> at > after
      {
        AfterSelects(at, id, after);
      }
    } else {
      var id: string :| true;
      EpochInv();
      BeforeRange(0, id, after);
      assert !AtMost(LexMember(0, id), MaxAfter(Some(after)));
    }
  }
}
