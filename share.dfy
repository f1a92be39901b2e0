/** The share button of a counter card: the 2-second debounce guard and the
    message handed to the platform's share sheet. */
module Share {
  import opened Wrappers

  /** The card's `cooldown`, in milliseconds. */
  const Cooldown: int := 2000

  /** A request at `now` is honoured when strictly more than the cooldown has
      passed since the last honoured one. */
  predicate Admits(lastClickTime: int, now: int)
    ensures Admits(lastClickTime, now) ==> now > lastClickTime
  {
    now - lastClickTime > Cooldown
  }

  /** An honoured tap at `t` shuts the button for exactly the cooldown: a tap
      2000 ms later is dropped, one 2001 ms later is honoured. */
  lemma CooldownEdge(t: int)
    ensures !Admits(t, t + Cooldown) && Admits(t, t + Cooldown + 1)
  {
  }

  // ---------------------------------------------------------------------
  // The share message (`shareCounter`).

  const MessageHead: string := "J'ai r\U{E9}ussi \U{E0} tenir "
  const MessageMiddle: string := " jours pour mon objectif '"
  const MessageTail: string := "' ! Rejoignez-moi sur Compteur."

  function DigitChar(d: int): char
    requires 0 <= d < 10
  {
    "0123456789"[d]
  }

  predicate IsDigit(c: char) {
    '0' <= c <= '9'
  }

  /** The decimal digits of a natural number, most significant first. */
  function Digits(n: nat): (s: string)
    ensures |s| > 0 && forall i :: 0 <= i < |s| ==> IsDigit(s[i])
    ensures n > 0 ==> s[0] != '0'
  {
    if n < 10 then [DigitChar(n)] else Digits(n / 10) + [DigitChar(n % 10)]
  }

  /** `Long.toString`, as a string template renders `$days`. */
  function DecimalString(n: int): string {
    if n < 0 then "-" + Digits(-n) else Digits(n)
  }

  /** The text `shareCounter` sends for a counter's title and day count. */
  function ShareText(days: int, title: string): (s: string)
    ensures |s| > |MessageHead| + |MessageTail| + |title|
    ensures s[..|MessageHead|] == MessageHead && s[|s| - |MessageTail|..] == MessageTail
  {
    MessageHead + DecimalString(days) + MessageMiddle + title + MessageTail
  }

  /** The value of a string of decimal digits. */
  function DigitsValue(s: string): nat
    requires forall i :: 0 <= i < |s| ==> IsDigit(s[i])
  {
    if |s| == 0 then 0
    else 10 * DigitsValue(s[..|s| - 1]) + DigitValue(s[|s| - 1])
  }

  function DigitValue(c: char): nat
    requires IsDigit(c)
  {
    c as int - '0' as int
  }

  /** Reads back a rendered `Long`. */
  function ParseDecimal(s: string): Option<int> {
    if |s| > 0 && s[0] == '-' then
      (if |s| > 1 && forall i :: 1 <= i < |s| ==> IsDigit(s[i]) then Some(0 - DigitsValue(s[1..]) as int) else None)
    else if |s| > 0 && forall i :: 0 <= i < |s| ==> IsDigit(s[i]) then Some(DigitsValue(s))
    else None
  }

  /** The length of the longest prefix of `s` without a space. */
  function SpaceFree(s: string): (k: nat)
    ensures k <= |s| && (k < |s| ==> s[k] == ' ')
    ensures forall i :: 0 <= i < k ==> s[i] != ' '
  {
    if |s| == 0 || s[0] == ' ' then 0 else 1 + SpaceFree(s[1..])
  }

  /** Recovers the day count and the title from a share message. */
  function ParseShareText(s: string): Option<(int, string)> {
    if |s| < |MessageHead| || s[..|MessageHead|] != MessageHead then None
    else
      var rest := s[|MessageHead|..];
      var k := SpaceFree(rest);
      var days := ParseDecimal(rest[..k]);
      var tail := rest[k..];
      if days.None? || |tail| < |MessageMiddle| + |MessageTail| then None
      else if tail[..|MessageMiddle|] != MessageMiddle then None
      else if tail[|tail| - |MessageTail|..] != MessageTail then None
      else Some((days.value, tail[|MessageMiddle|..|tail| - |MessageTail|]))
  }

  lemma {:induction false} DigitsRoundTrip(n: nat)
    ensures DigitsValue(Digits(n)) == n
  {
    if n >= 10 {
      DigitsRoundTrip(n / 10);
      var s := Digits(n);
      assert s[..|s| - 1] == Digits(n / 10);
    }
  }

  /** Rendering a day count and reading it back gives the same count. */
  lemma DecimalRoundTrip(n: int)
    ensures ParseDecimal(DecimalString(n)) == Some(n)
  {
    var s := DecimalString(n);
    if n < 0 {
      var d := Digits(-n);
      DigitsRoundTrip(-n);
      assert s == "-" + d && s[1..] == d;
      assert forall i :: 1 <= i < |s| ==> s[i] == d[i - 1];
      assert forall i :: 1 <= i < |s| ==> IsDigit(s[i]);
    } else {
      DigitsRoundTrip(n);
      assert s == Digits(n) && IsDigit(s[0]);
    }
  }

  /** A rendered `Long` holds no space, so the first space after the head of
      a message is where the day count ends. */
  lemma SpaceFreeAfterNumber(dec: string, rest: string)
    requires forall i :: 0 <= i < |dec| ==> dec[i] != ' '
    requires |rest| > 0 && rest[0] == ' '
    ensures SpaceFree(dec + rest) == |dec|
  {
    var k := SpaceFree(dec + rest);
    assert (dec + rest)[|dec|] == ' ';
  }

  lemma DecimalHasNoSpace(n: int)
    ensures forall i :: 0 <= i < |DecimalString(n)| ==> DecimalString(n)[i] != ' '
  {
    if n < 0 {
      var d := Digits(-n);
      assert forall i :: 1 <= i < |DecimalString(n)| ==> DecimalString(n)[i] == d[i - 1];
    }
  }

  /** The share message determines the day count and the title it was built
      from. */
  lemma ShareTextRoundTrip(days: int, title: string)
    ensures ParseShareText(ShareText(days, title)) == Some((days, title))
  {
    var s := ShareText(days, title);
    var dec := DecimalString(days);
    var tail := MessageMiddle + title + MessageTail;
    assert s == MessageHead + (dec + tail);
    assert s[..|MessageHead|] == MessageHead;
    var rest := s[|MessageHead|..];
    assert rest == dec + tail;
    DecimalHasNoSpace(days);
    SpaceFreeAfterNumber(dec, tail);
    assert rest[..|dec|] == dec && rest[|dec|..] == tail;
    DecimalRoundTrip(days);
    assert tail[..|MessageMiddle|] == MessageMiddle;
    assert tail[|tail| - |MessageTail|..] == MessageTail;
    assert tail[|MessageMiddle|..|tail| - |MessageTail|] == title;
  }

  /** Two cards send the same message only for the same title and count. */
  lemma ShareTextInjective(d1: int, t1: string, d2: int, t2: string)
    requires ShareText(d1, t1) == ShareText(d2, t2)
    ensures d1 == d2 && t1 == t2
  {
    ShareTextRoundTrip(d1, t1);
    ShareTextRoundTrip(d2, t2);
  }

  // ---------------------------------------------------------------------
  // The debounce guard.

  /** The per-card debounce state: `lastClickTime`, a reading of the
      monotonic clock in milliseconds. */
  class ShareGuard {
    var lastClickTime: int

    constructor ()
      ensures lastClickTime == 0
    {
      lastClickTime := 0;
    }

    /** A tap on the share button at clock reading `now`. When the guard
        admits it, the clock reading is recorded and the message for `title`
        and `days` is sent; otherwise nothing happens. */
    method TryShare(now: int, title: string, days: int) returns (sent: Option<string>)
      modifies this
      ensures sent.Some? <==> Admits(old(lastClickTime), now)
      ensures sent.Some? ==> sent.value == ShareText(days, title) && lastClickTime == now
      ensures sent.None? ==> lastClickTime == old(lastClickTime)
    {
      if now - lastClickTime > Cooldown {
        lastClickTime := now;
        sent := Some(ShareText(days, title));
      } else {
        sent := None;
      }
    }
  }

  /** The requests of `times`, in order, that a guard whose `lastClickTime`
      is `last` honours. */
  function Honoured(last: int, times: seq<int>): (h: seq<int>)
    ensures |h| <= |times|
    ensures forall t :: t in h ==> t in times
    decreases |times|
  {
    if |times| == 0 then []
    else if Admits(last, times[0]) then [times[0]] + Honoured(times[0], times[1..])
    else Honoured(last, times[1..])
  }

  /** The guard's `lastClickTime` after the requests of `times`: the last
      honoured request, or `last` when none was honoured. */
  function LastClickAfter(last: int, times: seq<int>): (r: int)
    ensures var h := Honoured(last, times); r == if h == [] then last else h[|h| - 1]
    decreases |times|
  {
    if |times| == 0 then last
    else if Admits(last, times[0]) then LastClickAfter(times[0], times[1..])
    else LastClickAfter(last, times[1..])
  }

  /** Each time of `h` lies more than the cooldown after the one before it,
      the first more than the cooldown after `last`. */
  predicate Spaced(last: int, h: seq<int>)
    decreases |h|
  {
    |h| == 0 || (h[0] - last > Cooldown && Spaced(h[0], h[1..]))
  }

  /** `Spaced` read pairwise: the first time is more than the cooldown after
      `last`, and consecutive times are more than the cooldown apart. */
  lemma {:induction false} SpacedPairwise(last: int, h: seq<int>)
    ensures Spaced(last, h) <==>
      (|h| > 0 ==> h[0] - last > Cooldown) &&
      (forall i :: 1 <= i < |h| ==> h[i] - h[i - 1] > Cooldown)
    decreases |h|
  {
    if |h| > 0 {
      var t := h[1..];
      SpacedPairwise(h[0], t);
      if Spaced(last, h) {
        forall i | 1 <= i < |h|
          ensures h[i] - h[i - 1] > Cooldown
        {
          if i > 1 {
            assert t[i - 1] - t[i - 2] > Cooldown;
          }
        }
      }
      if h[0] - last > Cooldown && forall i :: 1 <= i < |h| ==> h[i] - h[i - 1] > Cooldown {
        forall j | 1 <= j < |t|
          ensures t[j] - t[j - 1] > Cooldown
        {
          assert h[j + 1] - h[j] > Cooldown;
        }
        if |t| > 0 {
          assert h[1] - h[0] > Cooldown;
        }
      }
    }
  }

  /** Every honoured request comes more than the cooldown after the one
      honoured before it (or after the initial `last`), whatever the order of
      the requests. */
  lemma HonouredSpacing(last: int, times: seq<int>)
    ensures var h := Honoured(last, times);
      (|h| > 0 ==> h[0] - last > Cooldown) &&
      (forall i :: 1 <= i < |h| ==> h[i] - h[i - 1] > Cooldown)
  {
    HonouredSpaced(last, times);
    SpacedPairwise(last, Honoured(last, times));
  }

  lemma {:induction false} HonouredSpaced(last: int, times: seq<int>)
    ensures Spaced(last, Honoured(last, times))
    decreases |times|
  {
    if |times| > 0 {
      if Admits(last, times[0]) {
        HonouredSpaced(times[0], times[1..]);
        assert Honoured(last, times)[1..] == Honoured(times[0], times[1..]);
      } else {
        HonouredSpaced(last, times[1..]);
      }
    }
  }

  /** Requests no later than the cooldown after an honoured one at `t`,
      including one exactly 2000 ms after it, are all dropped. */
  lemma {:induction false} QuietWindow(t: int, times: seq<int>)
    requires forall i :: 0 <= i < |times| ==> times[i] <= t + Cooldown
    ensures Honoured(t, times) == []
    ensures LastClickAfter(t, times) == t
    decreases |times|
  {
    if |times| > 0 {
      QuietWindow(t, times[1..]);
    }
  }

  /** A series of taps on one card's share button at the clock readings
      `times`: the guard honours exactly the taps `Honoured` selects and is
      left with `LastClickAfter` as its `lastClickTime`. */
  method TapSeries(guard: ShareGuard, times: seq<int>, title: string, days: int) returns (honoured: seq<int>)
    modifies guard
    ensures honoured == Honoured(old(guard.lastClickTime), times)
    ensures guard.lastClickTime == LastClickAfter(old(guard.lastClickTime), times)
  {
    honoured := [];
    var i := 0;
    while i < |times|
      invariant 0 <= i <= |times|
      invariant Honoured(old(guard.lastClickTime), times) == honoured + Honoured(guard.lastClickTime, times[i..])
      invariant LastClickAfter(old(guard.lastClickTime), times) == LastClickAfter(guard.lastClickTime, times[i..])
    {
      assert times[i..][1..] == times[i + 1..];
      var sent := guard.TryShare(times[i], title, days);
      if sent.Some? {
        honoured := honoured + [times[i]];
      }
      i := i + 1;
    }
    assert times[i..] == [];
  }

  /** Two taps 2000 ms apart share once; a third 2100 ms after the first
      shares again. */
  method DoubleTapScenario(start: int, title: string, days: int)
    requires start > Cooldown
  {
    var guard := new ShareGuard();
    var first := guard.TryShare(start, title, days);
    var second := guard.TryShare(start + 2000, title, days);
    var third := guard.TryShare(start + 2100, title, days);
    assert first == Some(ShareText(days, title));
    assert second.None? && third.Some?;
  }
}
