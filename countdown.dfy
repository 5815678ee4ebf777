/**
 * The offer countdown: one tick of `initCountdown` and of `initDetailedCountdown`,
 * `getDaysRemaining`, and the choice of countdown made when the page loads.
 *
 * The page is the set of element ids it holds; a tick is the list of text writes it
 * makes to those elements. The clock is the parameter `now` (milliseconds since the
 * epoch, as `Date.getTime()` returns); the interval timer that repeats the tick is
 * not modelled.
 */
module Countdown {
  import opened Wrappers
  import opened Decimal

  /** 18 August 2025, 23:59:59 Italian summer time (UTC+2), in milliseconds since the epoch. */
  const OfferEndMs: int := 1755554399000

  const ExpiredText := "Offerta scaduta!"
  const ExpiredHtml := "<div style=\"color: #ff6b35; font-size: 1.2rem;\">Offerta scaduta!</div>"

  /** Milliseconds left until the offer ends; negative once it has ended. */
  function Distance(now: int): int {
    OfferEndMs - now
  }

  datatype Fields = Fields(days: nat, hours: nat, minutes: nat, seconds: nat)

  /**
   * The time the fields stand for, in milliseconds. The unit lengths are written as
   * literals, as the source writes them, so that the solver sees linear arithmetic.
   */
  function Millis(f: Fields): nat {
    f.days * (1000 * 60 * 60 * 24) + f.hours * (1000 * 60 * 60) + f.minutes * (1000 * 60) + f.seconds * 1000
  }

  /** Clock fields: hours, minutes and seconds below their wrap-around. */
  predicate InRange(f: Fields) {
    f.hours < 24 && f.minutes < 60 && f.seconds < 60
  }

  /**
   * The floor-division / modulo split of a non-negative distance. For a non-negative
   * integer `Math.floor(a / b)` and `a % b` agree with Dafny's `/` and `%`.
   */
  function Decompose(distance: nat): (f: Fields)
    ensures InRange(f)
    ensures Millis(f) <= distance < Millis(f) + 1000
  {
    HoursInDayRemainder(distance);
    MinutesInHourRemainder(distance);
    SecondsInMinuteRemainder(distance);
    Fields(distance / (1000 * 60 * 60 * 24),
           (distance % (1000 * 60 * 60 * 24)) / (1000 * 60 * 60),
           (distance % (1000 * 60 * 60)) / (1000 * 60),
           (distance % (1000 * 60)) / 1000)
  }

  // The remainder by a day is whole hours plus the remainder by an hour, and so on down.
  // One fact per lemma keeps each proof obligation small.

  lemma HoursInDayRemainder(x: nat)
    ensures x % 86400000 == x % 86400000 / 3600000 * 3600000 + x % 3600000
  {
    var q, r := x / 86400000, x % 86400000;
    assert x == q * 86400000 + r;
    assert r == r / 3600000 * 3600000 + r % 3600000;
    DivModHour(x, q * 24 + r / 3600000, r % 3600000);
  }

  lemma MinutesInHourRemainder(x: nat)
    ensures x % 3600000 == x % 3600000 / 60000 * 60000 + x % 60000
  {
    var q, r := x / 3600000, x % 3600000;
    assert x == q * 3600000 + r;
    assert r == r / 60000 * 60000 + r % 60000;
    DivModMinute(x, q * 60 + r / 60000, r % 60000);
  }

  lemma SecondsInMinuteRemainder(x: nat)
    ensures x % 60000 == x % 60000 / 1000 * 1000 + x % 1000
  {
    var q, r := x / 60000, x % 60000;
    assert x == q * 60000 + r;
    assert r == r / 1000 * 1000 + r % 1000;
    DivModSecondRem(x, q * 60 + r / 1000, r % 1000);
  }

  // Quotient and remainder are determined by any exact split.

  lemma DivModDay(x: nat, q: nat, r: nat)
    requires x == q * 86400000 + r && r < 86400000
    ensures x / 86400000 == q && x % 86400000 == r
  {
  }

  lemma DivModHour(x: nat, q: nat, r: nat)
    requires x == q * 3600000 + r && r < 3600000
    ensures x / 3600000 == q && x % 3600000 == r
  {
  }

  lemma DivModMinute(x: nat, q: nat, r: nat)
    requires x == q * 60000 + r && r < 60000
    ensures x / 60000 == q && x % 60000 == r
  {
  }

  lemma DivModSecond(x: nat, q: nat, r: nat)
    requires x == q * 1000 + r && r < 1000
    ensures x / 1000 == q
  {
  }

  lemma DivModSecondRem(x: nat, q: nat, r: nat)
    requires x == q * 1000 + r && r < 1000
    ensures x % 1000 == r
  {
  }

  /** Decompose is the only split into in-range fields that is exact to the second. */
  lemma DecomposeUnique(distance: nat, f: Fields)
    requires InRange(f) && Millis(f) <= distance < Millis(f) + 1000
    ensures f == Decompose(distance)
  {
    var r3 := distance - Millis(f) + f.seconds * 1000;
    var r2 := r3 + f.minutes * 60000;
    var r1 := r2 + f.hours * 3600000;
    DivModDay(distance, f.days, r1);
    DivModHour(r1, f.hours, r2);
    DivModHour(distance, f.days * 24 + f.hours, r2);
    DivModMinute(r2, f.minutes, r3);
    DivModMinute(distance, (f.days * 24 + f.hours) * 60 + f.minutes, r3);
    DivModSecond(r3, f.seconds, distance - Millis(f));
  }

  /** `days + "g " + hours + "h " + minutes + "m"`, the 'simple' format. */
  function SimpleText(f: Fields): string {
    NatToString(f.days) + ("g " + (NatToString(f.hours) + ("h " + (NatToString(f.minutes) + "m"))))
  }

  /** Reads a numeral followed by `sep` off the front of `s`, giving its value and what follows. */
  function ReadNumber(s: string, sep: string): Option<(nat, string)> {
    var a := DigitRun(s);
    if a == 0 || !SeparatorAt(s, a, sep) then None
    else Some((ParseNat(s[..a]), s[a + |sep|..]))
  }

  /** `sep` occurs in `s` at position `a`. */
  predicate SeparatorAt(s: string, a: nat, sep: string) {
    a + |sep| <= |s| && s[a..a + |sep|] == sep
  }

  /** Reads a 'simple' text back into (days, hours, minutes). */
  function ParseSimple(s: string): Option<(nat, nat, nat)> {
    match ReadNumber(s, "g ")
    case None => None
    case Some((days, t)) =>
      match ReadNumber(t, "h ")
      case None => None
      case Some((hours, u)) =>
        match ReadNumber(u, "m")
        case None => None
        case Some((minutes, rest)) => if rest == [] then Some((days, hours, minutes)) else None
  }

  /** The length of the longest all-digit prefix of `s`. */
  function DigitRun(s: string): (n: nat)
    ensures n <= |s| && AllDigits(s[..n])
    ensures n < |s| ==> !IsDigit(s[n])
    decreases |s|
  {
    if s == [] || !IsDigit(s[0]) then 0
    else
      var n := 1 + DigitRun(s[1..]);
      assert s[..n] == [s[0]] + s[1..][..n - 1];
      n
  }

  /** A numeral followed by a non-digit is read back as exactly that numeral. */
  lemma {:induction false} DigitRunOfNumeral(d: string, rest: string)
    requires AllDigits(d)
    requires rest != [] && !IsDigit(rest[0])
    ensures DigitRun(d + rest) == |d|
    decreases |d|
  {
    if d != [] {
      assert (d + rest)[1..] == d[1..] + rest;
      DigitRunOfNumeral(d[1..], rest);
    }
  }

  lemma ReadNumberOfNumeral(n: nat, sep: string, rest: string)
    requires sep != [] && !IsDigit(sep[0])
    ensures ReadNumber(NatToString(n) + (sep + rest), sep) == Some((n, rest))
  {
    ReadNumberOfDigits(NatToString(n), sep, rest);
    ParseNatToString(n);
  }

  lemma ReadNumberOfDigits(d: string, sep: string, rest: string)
    requires d != [] && AllDigits(d)
    requires sep != [] && !IsDigit(sep[0])
    ensures ReadNumber(d + (sep + rest), sep) == Some((ParseNat(d), rest))
  {
    var s := d + (sep + rest);
    var a := |d|;
    assert DigitRun(s) == a by { DigitRunOfNumeral(d, sep + rest); }
    assert SeparatorAt(s, a, sep) && s[a + |sep|..] == rest && s[..a] == d by {
      assert s[a..] == sep + rest;
    }
    ReadNumberAt(s, sep, a);
  }

  /** Unfolds ReadNumber at a known digit run followed by the separator. */
  lemma ReadNumberAt(s: string, sep: string, a: nat)
    requires 0 < a && DigitRun(s) == a && SeparatorAt(s, a, sep)
    ensures ReadNumber(s, sep) == Some((ParseNat(s[..a]), s[a + |sep|..]))
  {
  }

  /** The 'simple' format loses nothing: days, hours and minutes can be read back from it. */
  lemma SimpleTextRoundTrip(f: Fields)
    ensures ParseSimple(SimpleText(f)) == Some((f.days, f.hours, f.minutes))
  {
    var u := NatToString(f.minutes) + "m";
    var t := NatToString(f.hours) + ("h " + u);
    ReadNumberOfNumeral(f.days, "g ", t);
    ReadNumberOfNumeral(f.hours, "h ", u);
    assert "m" + "" == "m";
    ReadNumberOfNumeral(f.minutes, "m", "");
  }

  datatype Write = Write(id: string, text: string)

  /**
   * What one tick does: the writes in order, and whether it stopped on a
   * `TypeError` (a missing element dereferenced).
   */
  datatype Tick = Tick(writes: seq<Write>, faulted: bool)

  /** The four padded fields of the detailed format, in the order the source writes them. */
  function Slots(f: Fields): seq<Write> {
    [Write("days", TwoDigits(f.days)), Write("hours", TwoDigits(f.hours)),
     Write("minutes", TwoDigits(f.minutes)), Write("seconds", TwoDigits(f.seconds))]
  }

  /** `document.getElementById(id).textContent = text` for each slot: a missing element throws. */
  function WriteStrict(page: set<string>, slots: seq<Write>): (t: Tick)
    ensures t.faulted <==> exists i :: 0 <= i < |slots| && slots[i].id !in page
    ensures t.writes <= slots
    ensures !t.faulted ==> t.writes == slots
    ensures forall i :: 0 <= i < |t.writes| ==> t.writes[i].id in page
    ensures t.faulted ==> |t.writes| < |slots| && slots[|t.writes|].id !in page
    decreases |slots|
  {
    if slots == [] then Tick([], false)
    else if slots[0].id !in page then Tick([], true)
    else
      var rest := WriteStrict(page, slots[1..]);
      assert forall i :: 0 < i < |slots| ==> slots[i] == slots[1..][i - 1];
      var w := [slots[0]] + rest.writes;
      assert forall i :: 0 < i < |w| ==> w[i] == rest.writes[i - 1];
      Tick(w, rest.faulted)
  }

  /** The unguarded detailed writes fault exactly when one of the four field elements is missing. */
  lemma SlotsFaultExactly(page: set<string>, f: Fields)
    ensures WriteStrict(page, Slots(f)).faulted <==>
              !("days" in page && "hours" in page && "minutes" in page && "seconds" in page)
  {
    var s := Slots(f);
    assert s[0].id == "days" && s[1].id == "hours" && s[2].id == "minutes" && s[3].id == "seconds";
  }

  /** `if (el) el.textContent = text` for each slot: missing elements are skipped. */
  function WriteIfPresent(page: set<string>, slots: seq<Write>): (w: seq<Write>)
    ensures forall x :: x in w <==> x in slots && x.id in page
    decreases |slots|
  {
    if slots == [] then []
    else if slots[0].id in page then [slots[0]] + WriteIfPresent(page, slots[1..])
    else WriteIfPresent(page, slots[1..])
  }

  /**
   * One tick of `initCountdown(elementId, format)`. Without its element it does nothing;
   * it faults only in the 'detailed' format before the end, exactly when a field element
   * is missing; every write it makes goes to an element the page has.
   */
  function CountdownTick(elementId: string, format: string, page: set<string>, now: int): (t: Tick)
    ensures elementId !in page ==> t == Tick([], false)
    ensures t.faulted <==>
              elementId in page && Distance(now) >= 0 && format == "detailed" &&
              !("days" in page && "hours" in page && "minutes" in page && "seconds" in page)
    ensures forall i :: 0 <= i < |t.writes| ==> t.writes[i].id in page
  {
    var distance := Distance(now);
    if elementId !in page then Tick([], false)
    else if distance < 0 then Tick([Write(elementId, ExpiredText)], false)
    else
      var f := Decompose(distance);
      if format == "detailed" then SlotsFaultExactly(page, f); WriteStrict(page, Slots(f))
      else if format == "simple" then Tick([Write(elementId, SimpleText(f))], false)
      else if format == "days-only" then Tick([Write(elementId, NatToString(f.days))], false)
      else Tick([], false)
  }

  /**
   * One tick of `initDetailedCountdown()`: it never faults and writes only to elements the
   * page has; before the end it writes exactly those of the four padded fields whose
   * element the page has.
   */
  function DetailedCountdownTick(page: set<string>, now: int): (t: Tick)
    ensures !t.faulted
    ensures forall w :: w in t.writes ==> w.id in page
    ensures Distance(now) >= 0 ==>
              forall w :: w in t.writes <==> w in Slots(Decompose(Distance(now))) && w.id in page
  {
    var distance := Distance(now);
    if distance < 0 then
      Tick(if "countdown" in page then [Write("countdown", ExpiredHtml)] else [], false)
    else
      Tick(WriteIfPresent(page, Slots(Decompose(distance))), false)
  }

  /** Once the offer has ended, a tick writes only the expiry notice and no field. */
  lemma ExpiredWritesNoField(elementId: string, format: string, page: set<string>, now: int)
    requires Distance(now) < 0
    ensures forall w :: w in CountdownTick(elementId, format, page, now).writes ==> w.text == ExpiredText
    ensures forall w :: w in DetailedCountdownTick(page, now).writes ==> w == Write("countdown", ExpiredHtml)
    ensures !CountdownTick(elementId, format, page, now).faulted
    ensures elementId in page ==>
              CountdownTick(elementId, format, page, now) == Tick([Write(elementId, ExpiredText)], false)
    ensures "countdown" in page ==>
              DetailedCountdownTick(page, now) == Tick([Write("countdown", ExpiredHtml)], false)
  {
  }

  /** Before the end, the 'simple' format writes one text, and it reads back as the days, hours and minutes left. */
  lemma SimpleTickReadsBack(elementId: string, page: set<string>, now: int)
    requires elementId in page && Distance(now) >= 0
    ensures var t := CountdownTick(elementId, "simple", page, now);
            var f := Decompose(Distance(now));
            !t.faulted && |t.writes| == 1 && t.writes[0].id == elementId &&
            ParseSimple(t.writes[0].text) == Some((f.days, f.hours, f.minutes))
  {
    SimpleTextRoundTrip(Decompose(Distance(now)));
  }

  /** Before the end, the 'days-only' format writes the numeral `getDaysRemaining()` returns. */
  lemma DaysOnlyTickShowsDaysRemaining(elementId: string, page: set<string>, now: int)
    requires elementId in page && Distance(now) >= 0
    ensures CountdownTick(elementId, "days-only", page, now) == Tick([Write(elementId, NatToString(DaysRemaining(now)))], false)
  {
    DaysRemainingIsDaysField(now);
  }

  /** A format other than the three known ones writes nothing and does not fault. */
  lemma UnknownFormatWritesNothing(elementId: string, format: string, page: set<string>, now: int)
    requires format != "detailed" && format != "simple" && format != "days-only"
    ensures Distance(now) >= 0 ==> CountdownTick(elementId, format, page, now).writes == []
    ensures !CountdownTick(elementId, format, page, now).faulted
  {
  }

  /**
   * Before the end, `initCountdown(id, 'detailed')` on a page that has the element `id`
   * but no `days` element throws before writing anything, whatever the other elements.
   */
  lemma DetailedTickFaultsWithoutDays(elementId: string, page: set<string>, now: int)
    requires elementId in page && "days" !in page && Distance(now) >= 0
    ensures CountdownTick(elementId, "detailed", page, now) == Tick([], true)
  {
  }

  /** At the very instant the offer ends the countdown is not expired: it shows zeros. */
  lemma EndInstantShowsZeros(page: set<string>)
    requires "countdown-timer" in page
    ensures CountdownTick("countdown-timer", "simple", page, OfferEndMs).writes
            == [Write("countdown-timer", "0g 0h 0m")]
  {
    assert Decompose(0) == Fields(0, 0, 0, 0);
    assert DigitChar(0) == '0';
    assert SimpleText(Fields(0, 0, 0, 0)) == "0g 0h 0m";
  }

  /**
   * On a page that has all four field elements, `initCountdown(id, 'detailed')` and
   * `initDetailedCountdown()` write the same texts to the same elements.
   */
  lemma DetailedFormatsAgree(elementId: string, page: set<string>, now: int)
    requires elementId in page
    requires "days" in page && "hours" in page && "minutes" in page && "seconds" in page
    requires Distance(now) >= 0
    ensures CountdownTick(elementId, "detailed", page, now) == DetailedCountdownTick(page, now)
  {
    var f := Decompose(Distance(now));
    SlotsOnPage(page, TwoDigits(f.days), TwoDigits(f.hours), TwoDigits(f.minutes), TwoDigits(f.seconds));
    AllPresentSameWrites(page, Slots(f));
    DetailedFormatTick(elementId, page, now);
    LiveDetailedTick(page, now);
  }

  lemma DetailedFormatTick(elementId: string, page: set<string>, now: int)
    requires elementId in page && Distance(now) >= 0
    ensures CountdownTick(elementId, "detailed", page, now) == WriteStrict(page, Slots(Decompose(Distance(now))))
  {
  }

  lemma LiveDetailedTick(page: set<string>, now: int)
    requires Distance(now) >= 0
    ensures DetailedCountdownTick(page, now) == Tick(WriteIfPresent(page, Slots(Decompose(Distance(now)))), false)
  {
  }

  lemma SlotsOnPage(page: set<string>, days: string, hours: string, minutes: string, seconds: string)
    requires "days" in page && "hours" in page && "minutes" in page && "seconds" in page
    ensures var s := [Write("days", days), Write("hours", hours), Write("minutes", minutes), Write("seconds", seconds)];
            forall i :: 0 <= i < |s| ==> s[i].id in page
  {
  }

  lemma {:induction false} AllPresentSameWrites(page: set<string>, slots: seq<Write>)
    requires forall i :: 0 <= i < |slots| ==> slots[i].id in page
    ensures WriteStrict(page, slots) == Tick(WriteIfPresent(page, slots), false)
    decreases |slots|
  {
    if slots != [] {
      AllPresentSameWrites(page, slots[1..]);
    }
  }

  /** `getDaysRemaining()`: whole days left, never negative. */
  function DaysRemaining(now: int): (d: nat)
    ensures Distance(now) < 0 ==> d == 0
    ensures Distance(now) >= 0 ==> d * (1000 * 60 * 60 * 24) <= Distance(now) < (d + 1) * (1000 * 60 * 60 * 24)
  {
    var distance := Distance(now);
    if distance < 0 then 0 else distance / (1000 * 60 * 60 * 24)
  }

  /** The days left agree with the days field the countdown displays. */
  lemma DaysRemainingIsDaysField(now: int)
    requires Distance(now) >= 0
    ensures DaysRemaining(now) == Decompose(Distance(now)).days
  {
  }

  /** As time passes the days left never go up. */
  lemma DaysRemainingNonIncreasing(now: int, later: int)
    requires now <= later
    ensures DaysRemaining(later) <= DaysRemaining(now)
  {
    var d, d' := DaysRemaining(now), DaysRemaining(later);
    if Distance(later) >= 0 {
      assert d' * (1000 * 60 * 60 * 24) <= Distance(later) <= Distance(now) < (d + 1) * (1000 * 60 * 60 * 24);
      assert d' < d + 1;
    }
  }

  /** The countdown started when the page loads. */
  datatype Init = DetailedCountdown | CountdownOn(elementId: string, format: string)

  /** The auto-detection run on `DOMContentLoaded` (or at once when the page has loaded). */
  function AutoSelect(page: set<string>): (r: Option<Init>)
    ensures r == Some(DetailedCountdown) <==> "days" in page && "hours" in page
    ensures r == Some(CountdownOn("countdown-timer", "simple")) <==>
              !("days" in page && "hours" in page) && "countdown-timer" in page
    ensures r == Some(CountdownOn("countdown-days", "days-only")) <==>
              !("days" in page && "hours" in page) && "countdown-timer" !in page && "countdown-days" in page
    ensures r.None? <==>
              !("days" in page && "hours" in page) && "countdown-timer" !in page && "countdown-days" !in page
  {
    if "days" in page && "hours" in page then Some(DetailedCountdown)
    else if "countdown-timer" in page then Some(CountdownOn("countdown-timer", "simple"))
    else if "countdown-days" in page then Some(CountdownOn("countdown-days", "days-only"))
    else None
  }

  function TickOf(init: Init, page: set<string>, now: int): Tick {
    match init
    case DetailedCountdown => DetailedCountdownTick(page, now)
    case CountdownOn(id, format) => CountdownTick(id, format, page, now)
  }

  /**
   * Whatever countdown the page gets, its first tick before the end of the offer shows
   * something and never faults; a page gets none exactly when it has none of the
   * trigger elements.
   */
  lemma AutoSelectShowsCountdown(page: set<string>, now: int)
    ensures AutoSelect(page).Some? && Distance(now) >= 0 ==>
            TickOf(AutoSelect(page).value, page, now).writes != [] &&
            !TickOf(AutoSelect(page).value, page, now).faulted
  {
    if AutoSelect(page) == Some(DetailedCountdown) && Distance(now) >= 0 {
      var slots := Slots(Decompose(Distance(now)));
      assert slots[0] in WriteIfPresent(page, slots);
    }
  }

  /**
   * A detailed page without a `countdown` container keeps showing its last digits
   * after the offer ends: the expired tick writes nothing.
   */
  lemma DetailedExpiredWithoutContainer(page: set<string>, now: int)
    requires "countdown" !in page && Distance(now) < 0
    ensures DetailedCountdownTick(page, now).writes == []
  {
  }
}
