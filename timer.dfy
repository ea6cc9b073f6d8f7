/** The exam countdown of frontend/src/components/Timer.jsx: a one-second
    timeout per remaining second, `onEnd` once the count reaches zero, and
    the `MM:SS` display. */
module Timer {
  import opened JsBuiltins

  // ------------------------------------------------------------ display

  /** `x.toString().padStart(2, "0")`. */
  function TwoDigits(x: int): string {
    PadStart(IntToString(x), 2, '0')
  }

  /** The text after `Ends in: `: `Math.floor(sec/60)` and `sec % 60`, each
      padded to two characters. (Dafny's `/` by a positive number is
      already the floor.) */
  function Clock(sec: int): string {
    TwoDigits(sec / 60) + ":" + TwoDigits(JsRem(sec, 60))
  }

  /** A padded natural number is digits only and reads back as itself. */
  lemma PaddedValue(n: nat)
    ensures AllDigits(TwoDigits(n)) && DecimalValue(TwoDigits(n)) == n
    ensures |TwoDigits(n)| == if n < 100 then 2 else |NatToString(n)|
  {
    var d := NatToString(n);
    DecimalRoundTrip(n);
    if n < 10 {
      assert TwoDigits(n) == "0" + d;
      DecimalLeadingZero(d);
    }
  }

  /** `c` is a display `m:ss` whose minutes read back as `mm` and whose two
      seconds digits read back as `ss`. */
  predicate ReadsBackAs(c: string, mm: nat, ss: nat) {
    && |c| >= 5 && c[|c| - 3] == ':'
    && AllDigits(c[..|c| - 3]) && AllDigits(c[|c| - 2..])
    && DecimalValue(c[..|c| - 3]) == mm && DecimalValue(c[|c| - 2..]) == ss
  }

  /** For a non-negative count the display reads back as the whole minutes
      and the remaining seconds, which recompose the count with the seconds
      below sixty. */
  lemma {:induction false} ClockReadsBack(sec: int)
    requires sec >= 0
    ensures ReadsBackAs(Clock(sec), sec / 60, sec % 60)
    ensures (sec / 60) * 60 + sec % 60 == sec && sec % 60 < 60
  {
    var mm, ss := sec / 60, sec % 60;
    PaddedValue(mm);
    PaddedValue(ss);
    var m, s := TwoDigits(mm), TwoDigits(ss);
    assert Clock(sec) == m + ":" + s;
    ReadBack(m, s, mm, ss);
  }

  /** Reading back `m:ss` from padded digit strings. */
  lemma ReadBack(m: string, s: string, mm: nat, ss: nat)
    requires |m| >= 2 && AllDigits(m) && DecimalValue(m) == mm
    requires |s| == 2 && AllDigits(s) && DecimalValue(s) == ss
    ensures ReadsBackAs(m + ":" + s, mm, ss)
  {
    var c := m + ":" + s;
    assert c[..|c| - 3] == m;
    assert c[|c| - 2..] == s;
  }

  /** Below one hundred minutes the display is exactly `MM:SS`. */
  lemma ClockWidth(sec: int)
    requires 0 <= sec < 6000
    ensures |Clock(sec)| == 5 && Clock(sec)[2] == ':'
  {
    MinutesBelow100(sec);
    PaddedWidth(sec / 60);
    PaddedWidth(JsRem(sec, 60));
    JoinedWidth(TwoDigits(sec / 60), TwoDigits(JsRem(sec, 60)));
  }

  lemma MinutesBelow100(sec: int)
    requires 0 <= sec < 6000
    ensures 0 <= sec / 60 < 100 && 0 <= JsRem(sec, 60) < 60
  {
  }

  lemma PaddedWidth(n: int)
    requires 0 <= n < 100
    ensures |TwoDigits(n)| == 2
  {
  }

  lemma JoinedWidth(m: string, s: string)
    requires |m| == 2 && |s| == 2
    ensures |m + ":" + s| == 5 && (m + ":" + s)[2] == ':'
  {
  }

  lemma ClockExamples()
    ensures Clock(0) == "00:00"
    ensures Clock(59) == "00:59"
    ensures Clock(600) == "10:00"
  {
    PaddedZero();
    PaddedTens(59);
    PaddedTens(10);
    assert Clock(0) == TwoDigits(0) + ":" + TwoDigits(0);
    assert Clock(59) == TwoDigits(0) + ":" + TwoDigits(59);
    assert Clock(600) == TwoDigits(10) + ":" + TwoDigits(0);
  }

  lemma PaddedZero()
    ensures TwoDigits(0) == "00"
  {
    assert NatToString(0) == "0";
  }

  lemma PaddedTens(n: int)
    requires 10 <= n < 100
    ensures TwoDigits(n) == [DigitChar(n / 10), DigitChar(n % 10)]
  {
    assert NatToString(n) == [DigitChar(n / 10)] + [DigitChar(n % 10)];
  }

  // ---------------------------------------------------------- countdown

  /** The component's state. `pending` is a scheduled one-second timeout;
      `ends` counts the calls of `onEnd`, `ticks` the timeouts that fired. */
  class Countdown {
    ghost const total: int
    ghost var ticks: nat
    var sec: int
    var pending: bool
    var ends: nat

    /** The count is the start less the ticks, a timeout is pending exactly
        while it is positive, it never goes below zero from a non-negative
        start, and `onEnd` has only been called at zero or below. */
    ghost predicate Valid()
      reads this
    {
      && sec == total - ticks
      && (pending <==> sec > 0)
      && (total >= 0 ==> sec >= 0)
      && (total < 0 ==> ticks == 0)
      && (ends > 0 ==> sec <= 0)
    }

    /** Mounting with `totalSeconds`: the effect runs once on the initial
        value. */
    constructor (totalSeconds: int)
      ensures Valid()
      ensures total == totalSeconds && sec == totalSeconds && ticks == 0
      ensures pending <==> totalSeconds > 0
      ensures ends == if totalSeconds <= 0 then 1 else 0
    {
      total := totalSeconds;
      ticks := 0;
      sec := totalSeconds;
      pending := totalSeconds > 0;
      ends := if totalSeconds <= 0 then 1 else 0;
    }

    /** The scheduled timeout fires: `setSec(s => s - 1)`, then the effect
        runs on the new value. Nothing happens if none is scheduled. */
    method Tick()
      requires Valid()
      modifies this
      ensures Valid()
      ensures old(pending) ==> sec == old(sec) - 1 && ticks == old(ticks) + 1
      ensures !old(pending) ==> sec == old(sec) && ticks == old(ticks) && pending == old(pending)
      ensures ends == old(ends) + (if old(pending) && sec <= 0 then 1 else 0)
      ensures ends > old(ends) ==> sec == 0 && ticks == total
    {
      if pending {
        sec := sec - 1;
        ticks := ticks + 1;
        if sec <= 0 {
          pending := false;
          ends := ends + 1;
        }
      }
    }

    /** A re-render with a new `onEnd`: the effect runs again on the same
        count, so at zero `onEnd` is called once more. Above zero the pending
        one-second timeout is cleared and a fresh one started; the model has
        no clock, so that restart (which delays the next tick) leaves the
        state as it was. */
    method NewOnEnd()
      requires Valid()
      modifies this
      ensures Valid()
      ensures sec == old(sec) && pending == old(pending) && ticks == old(ticks)
      ensures ends == old(ends) + (if sec <= 0 then 1 else 0)
    {
      if sec <= 0 {
        ends := ends + 1;
      }
    }
  }
}
