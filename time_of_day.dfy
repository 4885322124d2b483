/**
 * Minutes of the day and their "HH:MM" text, as the day view writes them
 * (padStart(2, '0') on both halves) and reads them back (split(':') and
 * Number on each half, hours * 60 + minutes).
 */
module TimeOfDay {
  import opened Text

  /** Minute of the day; the day view never produces a negative one. */
  type Minute = int

  /** 23:00, the latest minute a placed block may end at. */
  const DayClose: Minute := 23 * 60

  /** The time line starts at 06:00 and has 34 half-hour drop slots. */
  const FirstSlot: Minute := 6 * 60
  const SlotCount: nat := 34
  const SlotLength: Minute := 30

  /** String.prototype.padStart(2, '0'). */
  function Pad2(s: string): (r: string)
    ensures |r| == if |s| < 2 then 2 else |s|
    ensures r[|r| - |s|..] == s
    ensures forall i :: 0 <= i < |r| - |s| ==> r[i] == '0'
  {
    if |s| == 0 then "00" else if |s| == 1 then "0" + s else s
  }

  /** The "HH:MM" text of a minute of the day. */
  function FormatTime(m: nat): (r: string)
  {
    Pad2(NatToString(m / 60)) + ":" + Pad2(NatToString(m % 60))
  }

  /** The source's toMinutes: split on ':', Number() on both halves, h * 60 + m. */
  function ToMinutes(s: string): (r: JsInt)
  {
    var parts := Split(s, ':');
    var h := NumberOf(parts[0]);
    var m := if |parts| > 1 then NumberOf(parts[1]) else NaN;
    if h.NaN? || m.NaN? then NaN else Int(h.value * 60 + m.value)
  }

  lemma PaddedNumber(n: nat)
    ensures AllDigits(Pad2(NatToString(n)))
    ensures NumberOf(Pad2(NatToString(n))) == Int(n)
    ensures ':' !in Pad2(NatToString(n))
  {
    var s := NatToString(n);
    DigitsValueOfNatToString(n);
    if |s| < 2 {
      DigitsValueLeadingZero(s);
      assert Pad2(s) == "0" + s;
    }
    assert AllDigits(Pad2(s));
  }

  /** Reading back "hh:mm" when neither half holds a colon. */
  lemma ToMinutesOfHalves(hh: string, mm: string)
    requires ':' !in hh && ':' !in mm
    ensures ToMinutes(hh + ":" + mm)
         == if NumberOf(hh).NaN? || NumberOf(mm).NaN? then NaN
            else Int(NumberOf(hh).value * 60 + NumberOf(mm).value)
  {
    SplitAfterPart(hh, ':', mm);
    SplitWithoutSep(mm, ':');
    assert hh + ":" + mm == hh + [':'] + mm;
    assert Split(hh + ":" + mm, ':') == [hh, mm];
  }

  /** The text written for a minute reads back as exactly that minute. */
  lemma ToMinutesOfFormatTime(m: nat)
    ensures ToMinutes(FormatTime(m)) == Int(m)
  {
    var h, mi := m / 60, m % 60;
    assert h * 60 + mi == m;
    PaddedNumber(h);
    PaddedNumber(mi);
    ToMinutesOfHalves(Pad2(NatToString(h)), Pad2(NatToString(mi)));
  }

  /** Start minute of drop slot i: 06:00, 06:30, ..., 22:30. */
  function SlotStart(i: nat): (m: Minute)
    requires i < SlotCount
    ensures FirstSlot <= m <= DayClose - SlotLength && m % SlotLength == 0
  {
    FirstSlot + SlotLength * i
  }

  /** The label of slot i: hour 6 + i / 2 and minute (i % 2) * 30, both padded. */
  function SlotTime(i: nat): (r: string)
    requires i < SlotCount
  {
    Pad2(NatToString(6 + i / 2)) + ":" + Pad2(NatToString((i % 2) * 30))
  }

  /** Every slot label is the formatted slot start, so it reads back as that start. */
  lemma SlotTimeReadsBack(i: nat)
    requires i < SlotCount
    ensures SlotTime(i) == FormatTime(SlotStart(i))
    ensures ToMinutes(SlotTime(i)) == Int(SlotStart(i))
  {
    var m := SlotStart(i);
    assert m / 60 == 6 + i / 2 && m % 60 == (i % 2) * 30;
    ToMinutesOfFormatTime(m);
  }
}
