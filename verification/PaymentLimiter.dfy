/** The housekeeping robot pays for cooling after sustained heat, but not too often. */
module PaymentLimiter {
  import opened Bytes

  const TRANSFER_INTERVAL: int := 120

  // A response to a query: A8 01 XX NM YZ
  const FRAME_LEN: nat := 5

  /** "Hot" looks at the BCD octet NM only; the sign octet XX is ignored. */
  predicate Hot(frame: seq<byte>)
    requires |frame| == FRAME_LEN
  {
    frame[3] >= 0x40
  }

  /** What a frame says in hundredths of a degree: NM.YZ in decimal digits, below zero if XX is 80. */
  function Hundredths(frame: seq<byte>): int
    requires |frame| == FRAME_LEN
  {
    var nm: int, yz: int := frame[3], frame[4];
    var v := nm / 16 * 1000 + nm % 16 * 100 + yz / 16 * 10 + yz % 16;
    if frame[2] == 0x80 then -v else v
  }

  predicate DecimalDigits(frame: seq<byte>)
    requires |frame| == FRAME_LEN
  {
    frame[3] / 16 <= 9 && frame[3] % 16 <= 9 && frame[4] / 16 <= 9 && frame[4] % 16 <= 9
  }

  /** A frame of decimal digits is hot exactly if it is 40 degrees or more away from zero, so the
      robot is right about heat exactly for frames that are not 40 degrees or more below zero. */
  lemma HotMeaning(frame: seq<byte>)
    requires |frame| == FRAME_LEN && DecimalDigits(frame)
    ensures Hot(frame) <==> Hundredths(frame) >= 4000 || Hundredths(frame) <= -4000
    ensures (Hot(frame) <==> Hundredths(frame) >= 4000) <==> Hundredths(frame) > -4000
  {
  }

  // Which samples are paid for

  /** How many hot samples in a row the first n samples end with. */
  function HotRun(hots: seq<bool>, n: nat): (r: nat)
    requires n <= |hots|
    ensures r <= n
    ensures forall j :: n - r <= j < n ==> hots[j]
    ensures r < n ==> !hots[n - r - 1]
  {
    if n == 0 || !hots[n - 1] then 0 else HotRun(hots, n - 1) + 1
  }

  /** The third, fifth, seventh... sample of a hot run. */
  predicate Due(hots: seq<bool>, i: nat)
    requires i < |hots|
  {
    HotRun(hots, i + 1) >= 3 && HotRun(hots, i + 1) % 2 == 1
  }

  /** None of the 119 samples before the i-th was paid for. */
  predicate Quiet(paid: seq<bool>, i: nat)
    requires i <= |paid|
  {
    forall j :: 0 <= j < i && i - j < TRANSFER_INTERVAL ==> !paid[j]
  }

  /** Sample i is paid for exactly when it is due and no payment is recent. */
  ghost predicate Schedule(hots: seq<bool>, paid: seq<bool>) {
    |paid| == |hots| && forall i :: 0 <= i < |hots| ==> (paid[i] <==> Due(hots, i) && Quiet(paid, i))
  }

  /** A count of samples until the next payment is possible. */
  predicate CountsDown(c: nat, paid: seq<bool>) {
    && c <= TRANSFER_INTERVAL
    && (c > 0 ==> TRANSFER_INTERVAL - c < |paid| && paid[|paid| - 1 - (TRANSFER_INTERVAL - c)])
    && forall j :: 0 <= j < |paid| && |paid| - j <= TRANSFER_INTERVAL - c ==> !paid[j]
  }

  class Robot {
    // g_countTemperature and g_countTransfer
    var countTemperature: nat
    var countTransfer: nat
    // all samples so far, and whether each led to a payment
    ghost var hots: seq<bool>
    ghost var paid: seq<bool>

    ghost predicate Valid()
      reads this
    {
      Counters(hots, paid, countTemperature, countTransfer)
    }

    constructor ()
      ensures Valid() && hots == []
    {
      countTemperature, countTransfer := 0, 0;
      hots, paid := [], [];
    }

    /** One turn of the sampling loop. */
    method Sample(frame: seq<byte>) returns (pay: bool)
      requires Valid() && |frame| == FRAME_LEN
      modifies this
      ensures Valid() && hots == old(hots) + [Hot(frame)] && paid == old(paid) + [pay]
    {
      ghost var h, p, t, c := hots, paid, countTemperature, countTransfer;
      pay := false;
      countTemperature := countTemperature + 1;
      if countTransfer > 0 {
        countTransfer := countTransfer - 1;
      } else {
        countTransfer := 0;
      }
      if frame[3] >= 0x40 {
        if countTemperature > 2 {
          countTemperature := 1;
          if countTransfer == 0 {
            countTransfer := TRANSFER_INTERVAL;
            pay := true;
          }
        }
      } else {
        countTemperature := 0;
      }
      hots, paid := h + [Hot(frame)], p + [pay];
      assert countTemperature == if !Hot(frame) then 0 else if t + 1 > 2 then 1 else t + 1;
      assert countTransfer == if pay then TRANSFER_INTERVAL else if c > 0 then c - 1 else 0;
      Next(h, p, t, c, Hot(frame), pay);
    }
  }

  /** What the counters are after the given samples and payments. */
  ghost predicate Counters(hots: seq<bool>, paid: seq<bool>, temperature: nat, transfer: nat) {
    Schedule(hots, paid) && CountsDown(transfer, paid) && temperature == Counted(HotRun(hots, |hots|))
  }

  /** One more sample, with the counters and the payment the code computes. */
  lemma Next(hots: seq<bool>, paid: seq<bool>, t: nat, c: nat, hot: bool, pay: bool)
    requires Counters(hots, paid, t, c) && (pay <==> hot && t + 1 > 2 && c <= 1)
    ensures Counters(hots + [hot], paid + [pay],
                     if !hot then 0 else if t + 1 > 2 then 1 else t + 1,
                     if pay then TRANSFER_INTERVAL else if c > 0 then c - 1 else 0)
  {
    NextRun(hots, hot);
    NextSchedule(hots, paid, c, hot, pay);
  }

  /** The temperature counter after r hot samples in a row: it starts over at 1 when it gets
      beyond 2. */
  function Counted(r: nat): nat {
    if r <= 2 then r else if r % 2 == 1 then 1 else 2
  }

  lemma {:induction false} RunBefore(hots: seq<bool>, hot: bool, n: nat)
    requires n <= |hots|
    ensures HotRun(hots + [hot], n) == HotRun(hots, n)
  {
    if n > 0 {
      RunBefore(hots, hot, n - 1);
    }
  }

  /** The temperature counter sees the same as the run. */
  lemma NextRun(hots: seq<bool>, hot: bool)
    ensures var n, c, next := |hots|, Counted(HotRun(hots, |hots|)), hots + [hot];
      && (Due(next, n) <==> hot && c + 1 > 2)
      && Counted(HotRun(next, |next|)) == if !hot then 0 else if c + 1 > 2 then 1 else c + 1
  {
    RunBefore(hots, hot, |hots|);
  }

  /** The schedule goes on, with a payment when the counter has come down to 1 or 0. */
  lemma NextSchedule(hots: seq<bool>, paid: seq<bool>, c: nat, hot: bool, pay: bool)
    requires Schedule(hots, paid) && CountsDown(c, paid)
    requires pay <==> Due(hots + [hot], |hots|) && c <= 1
    ensures Schedule(hots + [hot], paid + [pay])
    ensures CountsDown(if pay then TRANSFER_INTERVAL else if c > 0 then c - 1 else 0, paid + [pay])
  {
    var n, hs, ps := |hots|, hots + [hot], paid + [pay];
    forall i | 0 <= i <= n ensures ps[i] <==> Due(hs, i) && Quiet(ps, i) {
      if i < n {
        RunBefore(hots, hot, i + 1);
        assert paid[i] <==> Due(hots, i) && Quiet(paid, i);
        QuietBefore(paid, pay, i);
      } else {
        QuietCount(paid, c);
        QuietBefore(paid, pay, n);
      }
    }
  }

  lemma QuietBefore(paid: seq<bool>, pay: bool, i: nat)
    requires i <= |paid|
    ensures Quiet(paid + [pay], i) == Quiet(paid, i)
  {
    forall j | 0 <= j < i ensures (paid + [pay])[j] == paid[j] {
    }
  }

  lemma QuietCount(paid: seq<bool>, c: nat)
    requires CountsDown(c, paid)
    ensures Quiet(paid, |paid|) <==> c <= 1
  {
    if c > 1 {
      assert paid[|paid| - 1 - (TRANSFER_INTERVAL - c)];
    }
  }

  // What the payments keep

  /** The samples determine the payments. */
  lemma {:induction false} ScheduleUnique(hots: seq<bool>, a: seq<bool>, b: seq<bool>, n: nat)
    requires Schedule(hots, a) && Schedule(hots, b) && n <= |hots|
    ensures forall j :: 0 <= j < n ==> a[j] == b[j]
  {
    if n > 0 {
      ScheduleUnique(hots, a, b, n - 1);
      SameQuiet(a, b, n - 1);
    }
  }

  lemma SameQuiet(a: seq<bool>, b: seq<bool>, n: nat)
    requires n <= |a| == |b| && forall j :: 0 <= j < n ==> a[j] == b[j]
    ensures Quiet(a, n) == Quiet(b, n)
  {
  }

  /** Two payments are at least 120 samples apart. */
  lemma PaymentsApart(hots: seq<bool>, paid: seq<bool>, i: nat, j: nat)
    requires Schedule(hots, paid) && i < j < |hots| && paid[i] && paid[j]
    ensures j - i >= 120
  {
    assert Quiet(paid, j);
  }

  /** As long as it stays hot, a payment comes with the first or the second sample at which none is
      recent. */
  lemma PaidSoon(hots: seq<bool>, paid: seq<bool>, i: nat)
    requires Schedule(hots, paid) && 2 <= i < |hots| - 1 && Quiet(paid, i)
    requires hots[i - 2] && hots[i - 1] && hots[i] && hots[i + 1]
    ensures paid[i] || paid[i + 1]
  {
    assert HotRun(hots, i + 1) >= 3;
    assert HotRun(hots, i + 2) == HotRun(hots, i + 1) + 1;
    if !paid[i] {
      assert Due(hots, i + 1);
      assert Quiet(paid, i + 1);
    }
  }

  /** Every payment ends at least three hot samples in a row. */
  lemma PaidForHeat(hots: seq<bool>, paid: seq<bool>, i: nat)
    requires Schedule(hots, paid) && i < |hots| && paid[i]
    ensures i >= 2 && hots[i - 2] && hots[i - 1] && hots[i]
  {
    assert Due(hots, i);
    var r := HotRun(hots, i + 1);
    assert forall j :: i + 1 - r <= j < i + 1 ==> hots[j];
  }

  /** Payments among the samples from..end. */
  function Payments(paid: seq<bool>, from: nat, end: nat): nat
    requires from <= end <= |paid|
    decreases end
  {
    if end == from then 0 else Payments(paid, from, end - 1) + (if paid[end - 1] then 1 else 0)
  }

  /** Any n samples in a row hold at most (n + 119) / 120 payments. */
  lemma OneWindow(n: nat, before: nat)
    requires n > 0 && before == if n > TRANSFER_INTERVAL then n - TRANSFER_INTERVAL else 0
    ensures (before + TRANSFER_INTERVAL - 1) / TRANSFER_INTERVAL + 1 == (n + TRANSFER_INTERVAL - 1) / TRANSFER_INTERVAL
  {
  }

  lemma PaymentsBounded(hots: seq<bool>, paid: seq<bool>, from: nat, end: nat)
    requires Schedule(hots, paid) && from <= end <= |paid|
    ensures Payments(paid, from, end) <= (end - from + 119) / 120
  {
    SpacedBounded(paid, from, end);
  }

  predicate Spaced(paid: seq<bool>) {
    forall i :: 0 <= i < |paid| ==> paid[i] ==> Quiet(paid, i)
  }

  lemma {:induction false} SpacedBounded(paid: seq<bool>, from: nat, end: nat)
    requires Spaced(paid) && from <= end <= |paid|
    ensures Payments(paid, from, end) <= (end - from + TRANSFER_INTERVAL - 1) / TRANSFER_INTERVAL
    decreases end
  {
    if end > from {
      if paid[end - 1] {
        var start := if end - from > TRANSFER_INTERVAL then end - TRANSFER_INTERVAL else from;
        NonePaid(paid, start, end - 1, end - 1);
        PaymentsSplit(paid, from, start, end - 1);
        SpacedBounded(paid, from, start);
        OneWindow(end - from, start - from);
      } else {
        SpacedBounded(paid, from, end - 1);
      }
    }
  }

  lemma {:induction false} PaymentsSplit(paid: seq<bool>, from: nat, mid: nat, end: nat)
    requires from <= mid <= end <= |paid|
    ensures Payments(paid, from, end) == Payments(paid, from, mid) + Payments(paid, mid, end)
    decreases end
  {
    if end > mid {
      PaymentsSplit(paid, from, mid, end - 1);
    }
  }

  lemma {:induction false} NonePaid(paid: seq<bool>, start: nat, end: nat, n: nat)
    requires start <= end <= n <= |paid| && Quiet(paid, n) && n - start < TRANSFER_INTERVAL
    ensures Payments(paid, start, end) == 0
    decreases end
  {
    if end > start {
      NonePaid(paid, start, end - 1, n);
    }
  }

  /** Under constant heat the first payment comes with the third sample, and then one comes at
      every 120th sample exactly. */
  lemma {:induction false} ConstantHeat(hots: seq<bool>, paid: seq<bool>, n: nat)
    requires Schedule(hots, paid) && n < |hots| && forall i :: 0 <= i <= n ==> hots[i]
    ensures paid[n] <==> n >= 2 && (n - 2) % 120 == 0
    decreases n
  {
    AllHot(hots, n + 1);
    forall j | 0 <= j < n ensures paid[j] <==> j >= 2 && (j - 2) % TRANSFER_INTERVAL == 0 {
      ConstantHeat(hots, paid, j);
    }
    if n >= 2 {
      var last := n - (n - 2) % TRANSFER_INTERVAL;
      LastResidue(n, last);
      if last < n {
        assert paid[last];
      } else {
        forall j | 0 <= j < n && n - j < TRANSFER_INTERVAL ensures !paid[j] {
          if j >= 2 {
            NoResidue(n, j);
          }
        }
      }
    }
  }

  /** Up to n, the last number that is 2 modulo 120. */
  lemma LastResidue(n: nat, last: int)
    requires n >= 2 && last == n - (n - 2) % TRANSFER_INTERVAL
    ensures 2 <= last <= n && (last - 2) % TRANSFER_INTERVAL == 0 && n - last < TRANSFER_INTERVAL
    ensures last == n ==> n % 2 == 0
  {
    var q := (n - 2) / TRANSFER_INTERVAL;
    assert last == 2 + 120 * q;
    Multiple(q);
  }

  lemma Multiple(q: nat)
    ensures 120 * q % 120 == 0 && (2 + 120 * q) % 2 == 0
  {
    var y := 120 * q;
    var d, r := y / 120, y % 120;
    assert y == 120 * d + r && 0 <= r < 120;
    var k := q - d;
    assert 120 * k == r;
    assert k == 0;
    var z, e := 2 + y, (2 + y) / 2;
    assert z == 2 * (1 + 60 * q) && e == 1 + 60 * q;
  }

  lemma NoResidue(n: nat, j: nat)
    requires 2 <= j < n && n - j < TRANSFER_INTERVAL && (n - 2) % TRANSFER_INTERVAL == 0
    ensures (j - 2) % TRANSFER_INTERVAL != 0
  {
  }

  lemma {:induction false} AllHot(hots: seq<bool>, n: nat)
    requires n <= |hots| && forall i :: 0 <= i < n ==> hots[i]
    ensures HotRun(hots, n) == n
  {
    if n > 0 {
      AllHot(hots, n - 1);
    }
  }
}
