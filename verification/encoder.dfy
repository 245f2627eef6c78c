/**
 * The catalogue builder's encoder (`scripts/csv_to_json.py`): a human schedule such
 * as "MTh 09:30-11:00" becomes the timing-code list "109301100,409301100". The
 * regular expression that splits a comma part into its day letters and two clock
 * times is not modelled; its result is an input (`matcher`), required to have the
 * shape the expression guarantees.
 */
module Encoder {
  import opened Wrappers
  import opened Text
  import opened Catalog
  import opened TimingCodec
  import Seqs

  // ---------------------------------------------------------------------------
  // Regular-expression results
  // ---------------------------------------------------------------------------

  /** The three groups of `([A-Za-z]+)\s+(\d{1,2}:\d{2})-(\d{1,2}:\d{2})`. */
  datatype RegexMatch = RegexMatch(days: string, startTime: string, endTime: string)

  predicate IsLetter(c: char) {
    'a' <= c <= 'z' || 'A' <= c <= 'Z'
  }

  /** `\d{1,2}:\d{2}`: one or two hour digits, a colon, two minute digits. */
  predicate ValidClock(t: string) {
    (|t| == 4 || |t| == 5) && t[|t| - 3] == ':' && AllDigits(t[..|t| - 3]) && AllDigits(t[|t| - 2..])
  }

  predicate ValidMatch(m: RegexMatch) {
    |m.days| > 0 && (forall i :: 0 <= i < |m.days| ==> IsLetter(m.days[i]))
    && ValidClock(m.startTime) && ValidClock(m.endTime)
  }

  /** Every match the matcher reports has the regular expression's shape. */
  ghost predicate ValidMatcher(matcher: string -> Option<RegexMatch>) {
    forall p :: matcher(p).Some? ==> ValidMatch(matcher(p).value)
  }

  // ---------------------------------------------------------------------------
  // Days
  // ---------------------------------------------------------------------------

  /** `DAYS_MAP`: day tokens to day digits; Saturday is `S` and Sunday `Su`. */
  const DaysMap: map<string, char> := map["M" := '1', "T" := '2', "W" := '3', "Th" := '4', "F" := '5', "S" := '6', "Su" := '7']

  /** Concatenation of a token list. */
  function Concat(ts: seq<string>): string {
    if |ts| == 0 then "" else ts[0] + Concat(ts[1..])
  }

  /** The text starts with the two letters `Th`. */
  predicate StartsTh(d: string) {
    |d| >= 2 && d[0] == 'T' && d[1] == 'h'
  }

  /** The day tokeniser: at each position `Th` is one token when both letters are there, otherwise a single character. */
  function TokenizeDays(d: string): seq<string>
  {
    if |d| == 0 then []
    else if StartsTh(d) then ["Th"] + TokenizeDays(d[2..])
    else [d[..1]] + TokenizeDays(d[1..])
  }

  /**
   * The tokens spell the input back, each is `Th` or one character, the first
   * starts with the input's first letter, and no single `T` is ever followed by
   * a token starting with `h`.
   */
  lemma {:induction false} TokenizeSpellsBack(d: string)
    ensures var r := TokenizeDays(d);
      && Concat(r) == d
      && (forall i :: 0 <= i < |r| ==> r[i] == "Th" || |r[i]| == 1)
      && (|d| > 0 ==> |r| > 0 && |r[0]| > 0 && r[0][0] == d[0])
      && (forall i :: 0 <= i < |r| - 1 ==> !(r[i] == "T" && r[i + 1][0] == 'h'))
    decreases |d|
  {
    var r := TokenizeDays(d);
    if StartsTh(d) {
      var rest := TokenizeDays(d[2..]);
      TokenizeSpellsBack(d[2..]);
      assert r == ["Th"] + rest;
      assert r[1..] == rest;
      assert d[..2] == "Th";
      assert d == d[..2] + d[2..];
    } else if |d| > 0 {
      var rest := TokenizeDays(d[1..]);
      TokenizeSpellsBack(d[1..]);
      assert r == [d[..1]] + rest;
      assert r[1..] == rest;
      assert d == d[..1] + d[1..];
      assert |rest| > 0 && r[0] == "T" ==> rest[0][0] != 'h' by {
        if |rest| > 0 && r[0] == "T" {
          assert |d| >= 2 && d[1] == rest[0][0];
        }
      }
      forall i | 0 <= i < |r| - 1
        ensures !(r[i] == "T" && r[i + 1][0] == 'h')
      {
        if i > 0 {
          assert r[i] == rest[i - 1] && r[i + 1] == rest[i];
        }
      }
    }
  }

  // ---------------------------------------------------------------------------
  // Times and codes
  // ---------------------------------------------------------------------------

  function DigitChar(n: nat): char
    requires n < 10
  {
    ('0' as int + n) as char
  }

  /** Python's `f"{n:02d}"` for `n < 100`. */
  function Pad2(n: nat): (r: string)
    requires n < 100
    ensures |r| == 2 && AllDigits(r) && DecimalValue(r) == n
  {
    var r := [DigitChar(n / 10), DigitChar(n % 10)];
    DecimalValue2(r);
    r
  }

  function ClockHour(t: string): nat
    requires ValidClock(t)
  {
    DecimalValue(t[..|t| - 3])
  }

  function ClockMinute(t: string): nat
    requires ValidClock(t)
  {
    DecimalValue(t[|t| - 2..])
  }

  /**
   * `fmt_time_code`: the hour zero-padded to two digits, then the two minute
   * digits. Read as a number the code is `hour * 100 + minute`.
   */
  function FmtTimeCode(t: string): (r: string)
    requires ValidClock(t)
    ensures |r| == 4 && AllDigits(r)
    ensures DecimalValue(r) == ClockHour(t) * 100 + ClockMinute(t)
    ensures r[2..] == t[|t| - 2..]
  {
    var h := t[..|t| - 3];
    var m := t[|t| - 2..];
    HourBound(h);
    var r := Pad2(DecimalValue(h)) + m;
    DecimalValue4(r);
    assert r[..2] == Pad2(DecimalValue(h)) && r[2..] == m;
    r
  }

  lemma HourBound(h: string)
    requires |h| == 1 || |h| == 2
    requires AllDigits(h)
    ensures DecimalValue(h) < 100
  {
    if |h| == 2 {
      DecimalValue2(h);
    } else {
      assert h[..0] == [];
      assert IsDigit(h[0]);
      assert NumberValue(h, 10) == NumberValue(h[..0], 10) * 10 + DigitValue(h[0]);
    }
  }

  /** A two-digit number is ten times its first digit plus its second. */
  lemma DecimalValue2(s: string)
    requires |s| == 2
    ensures DecimalValue(s) == DigitValue(s[0]) * 10 + DigitValue(s[1])
  {
    assert s[..1] == [s[0]];
    assert s[..1][..0] == [];
    assert NumberValue(s, 10) == NumberValue(s[..1], 10) * 10 + DigitValue(s[1]);
    assert NumberValue(s[..1], 10) == NumberValue(s[..1][..0], 10) * 10 + DigitValue(s[0]);
  }

  /** A four-digit number splits into its first and last two digits. */
  lemma DecimalValue4(s: string)
    requires |s| == 4
    ensures DecimalValue(s) == DecimalValue(s[..2]) * 100 + DecimalValue(s[2..])
  {
    var a := s[..2];
    var b := s[2..];
    assert s[..3][..2] == a;
    assert s[..3] == a + [s[2]];
    assert NumberValue(s[..3], 10) == NumberValue(a, 10) * 10 + DigitValue(s[2]);
    assert NumberValue(s, 10) == NumberValue(s[..3], 10) * 10 + DigitValue(s[3]);
    DecimalValue2(b);
  }

  /** One decoded weekly slot before rendering: day digit, 4-digit start, 4-digit end. */
  datatype WeeklySlot = WeeklySlot(dayDigit: char, start: string, end: string)

  /** The 9-character code of a slot: day digit, then start, then end. */
  function Code(s: WeeklySlot): string {
    [s.dayDigit] + s.start + s.end
  }

  /** What the encoder guarantees of every code it emits. */
  predicate WellFormedCode(c: string) {
    |c| == 9 && '1' <= c[0] <= '7' && AllDigits(c[1..])
  }

  predicate WellFormedSlot(s: WeeklySlot) {
    '1' <= s.dayDigit <= '7' && |s.start| == 4 && |s.end| == 4 && AllDigits(s.start) && AllDigits(s.end)
  }

  /** The slots of one day-token list: known tokens only, in token order. */
  function TokenSlots(tokens: seq<string>, st: string, et: string): (r: seq<WeeklySlot>)
    ensures |r| <= |tokens|
    ensures forall i :: 0 <= i < |r| ==> '1' <= r[i].dayDigit <= '7' && r[i].start == st && r[i].end == et
  {
    if |tokens| == 0 then []
    else
      var rest := TokenSlots(tokens[1..], st, et);
      if tokens[0] in DaysMap then
        assert '1' <= DaysMap[tokens[0]] <= '7';
        var r := [WeeklySlot(DaysMap[tokens[0]], st, et)] + rest;
        assert forall i :: 1 <= i < |r| ==> r[i] == rest[i - 1];
        r
      else rest
  }

  /** One day token gives the slot of its `DAYS_MAP` digit, and a token not in the map gives nothing. */
  lemma TokenSlotsSingle(t: string, st: string, et: string)
    ensures TokenSlots([t], st, et) == if t in DaysMap then [WeeklySlot(DaysMap[t], st, et)] else []
  {
    assert [t][1..] == [];
  }

  /** The slots of two token lists one after the other: the first list's slots, then the second's. */
  lemma {:induction false} TokenSlotsAppend(a: seq<string>, b: seq<string>, st: string, et: string)
    ensures TokenSlots(a + b, st, et) == TokenSlots(a, st, et) + TokenSlots(b, st, et)
    decreases |a|
  {
    if |a| == 0 {
      assert a + b == b;
    } else {
      assert (a + b)[0] == a[0];
      assert (a + b)[1..] == a[1..] + b;
      TokenSlotsAppend(a[1..], b, st, et);
    }
  }

  /** Tokenising splits over a concatenation that does not cut a `Th` in two. */
  lemma {:induction false} TokenizeAppend(a: string, b: string)
    requires |a| == 0 || |b| == 0 || a[|a| - 1] != 'T' || b[0] != 'h'
    ensures TokenizeDays(a + b) == TokenizeDays(a) + TokenizeDays(b)
    decreases |a|
  {
    if |a| == 0 {
      assert a + b == b;
    } else if StartsTh(a) {
      TokenizeAppend(a[2..], b);
      TokenizeAppendTh(a, b, TokenizeDays(a[2..]), TokenizeDays(b));
    } else {
      TokenizeAppend(a[1..], b);
      NotThAppend(a, b);
      TokenizeAppendOne(a, b, TokenizeDays(a[1..]), TokenizeDays(b));
    }
  }

  /** The step of `TokenizeAppend` when `a` starts with `Th`; `x` and `y` are the tokens of `a[2..]` and `b`. */
  lemma TokenizeAppendTh(a: string, b: string, x: seq<string>, y: seq<string>)
    requires StartsTh(a)
    requires x == TokenizeDays(a[2..]) && y == TokenizeDays(b)
    requires TokenizeDays(a[2..] + b) == x + y
    ensures TokenizeDays(a + b) == TokenizeDays(a) + y
  {
    var s := a + b;
    assert s[0] == a[0] && s[1] == a[1];
    assert s[2..] == a[2..] + b;
    assert TokenizeDays(s) == ["Th"] + (x + y);
    Seqs.AppendAssoc(["Th"], x, y);
  }

  /** The step of `TokenizeAppend` when `a` and `a + b` start with a one-letter token. */
  lemma TokenizeAppendOne(a: string, b: string, x: seq<string>, y: seq<string>)
    requires |a| >= 1 && !StartsTh(a) && !StartsTh(a + b)
    requires x == TokenizeDays(a[1..]) && y == TokenizeDays(b)
    requires TokenizeDays(a[1..] + b) == x + y
    ensures TokenizeDays(a + b) == TokenizeDays(a) + y
  {
    HeadSplit(a, b);
    TokenizeOne(a + b);
    TokenizeOne(a);
    Seqs.AppendAssoc([a[..1]], x, y);
  }

  lemma HeadSplit(a: string, b: string)
    requires |a| >= 1
    ensures (a + b)[..1] == a[..1] && (a + b)[1..] == a[1..] + b
  {
  }

  /** A cut that does not fall inside `Th` keeps a non-`Th` start. */
  lemma NotThAppend(a: string, b: string)
    requires |a| >= 1 && !StartsTh(a)
    requires |b| == 0 || a[|a| - 1] != 'T' || b[0] != 'h'
    ensures !StartsTh(a + b)
  {
    var s := a + b;
    assert s[0] == a[0];
    if |a| >= 2 {
      assert s[1] == a[1];
    } else if |s| >= 2 {
      assert s[1] == b[0];
    }
  }

  lemma TokenizeOne(s: string)
    requires |s| >= 1 && !StartsTh(s)
    ensures TokenizeDays(s) == [s[..1]] + TokenizeDays(s[1..])
  {
  }

  /** The slots of one regular-expression match. */
  function MatchSlots(m: RegexMatch): (r: seq<WeeklySlot>)
    requires ValidMatch(m)
    ensures forall i :: 0 <= i < |r| ==> WellFormedSlot(r[i])
    ensures forall i :: 0 <= i < |r| ==> r[i].start == FmtTimeCode(m.startTime) && r[i].end == FmtTimeCode(m.endTime)
  {
    TokenSlots(TokenizeDays(m.days), FmtTimeCode(m.startTime), FmtTimeCode(m.endTime))
  }

  /**
   * The day text of a match splits into pieces: as long as the cut does not fall
   * inside a `Th`, the slots of the whole text are the slots of the first piece
   * followed by those of the second.
   */
  lemma MatchSlotsAppend(a: string, b: string, s: string, e: string)
    requires ValidMatch(RegexMatch(a, s, e)) && ValidMatch(RegexMatch(b, s, e))
    requires a[|a| - 1] != 'T' || b[0] != 'h'
    ensures ValidMatch(RegexMatch(a + b, s, e))
    ensures MatchSlots(RegexMatch(a + b, s, e)) == MatchSlots(RegexMatch(a, s, e)) + MatchSlots(RegexMatch(b, s, e))
  {
    var d := a + b;
    assert forall i :: 0 <= i < |d| ==> d[i] == if i < |a| then a[i] else b[i - |a|];
    TokenizeAppend(a, b);
    TokenSlotsAppend(TokenizeDays(a), TokenizeDays(b), FmtTimeCode(s), FmtTimeCode(e));
  }

  /** A one-letter day text gives the slot of its `DAYS_MAP` digit, or nothing for a letter not in the map. */
  lemma MatchSlotsLetter(c: char, s: string, e: string)
    requires IsLetter(c) && ValidClock(s) && ValidClock(e)
    ensures MatchSlots(RegexMatch([c], s, e))
      == if [c] in DaysMap then [WeeklySlot(DaysMap[[c]], FmtTimeCode(s), FmtTimeCode(e))] else []
  {
    assert TokenizeDays([c]) == [[c]] by {
      assert [c][..1] == [c];
      assert [c][1..] == [];
    }
    TokenSlotsSingle([c], FmtTimeCode(s), FmtTimeCode(e));
  }

  /** The day text `Th` gives one Thursday slot. */
  lemma MatchSlotsThursday(s: string, e: string)
    requires ValidClock(s) && ValidClock(e)
    ensures MatchSlots(RegexMatch("Th", s, e)) == [WeeklySlot('4', FmtTimeCode(s), FmtTimeCode(e))]
  {
    assert TokenizeDays("Th") == ["Th"] by {
      assert "Th"[..2] == "Th";
      assert "Th"[2..] == "";
    }
    TokenSlotsSingle("Th", FmtTimeCode(s), FmtTimeCode(e));
  }

  /** One comma part: blank after stripping gives nothing, so does a part the expression misses. */
  function PartSlots(part: string, matcher: string -> Option<RegexMatch>): seq<WeeklySlot>
    requires ValidMatcher(matcher)
  {
    var p := Trim(part);
    if p == "" then []
    else match matcher(p)
      case None => []
      case Some(m) => MatchSlots(m)
  }

  /** The slots of all comma parts: part order first, then day-token order. */
  function PartsSlots(parts: seq<string>, matcher: string -> Option<RegexMatch>): seq<WeeklySlot>
    requires ValidMatcher(matcher)
  {
    if |parts| == 0 then [] else PartSlots(parts[0], matcher) + PartsSlots(parts[1..], matcher)
  }

  /** Every slot of every part is well formed. */
  lemma {:induction false} PartsSlotsWellFormed(parts: seq<string>, matcher: string -> Option<RegexMatch>)
    requires ValidMatcher(matcher)
    ensures forall i :: 0 <= i < |PartsSlots(parts, matcher)| ==> WellFormedSlot(PartsSlots(parts, matcher)[i])
  {
    if |parts| > 0 {
      var head := PartSlots(parts[0], matcher);
      var rest := PartsSlots(parts[1..], matcher);
      PartsSlotsWellFormed(parts[1..], matcher);
      var r := head + rest;
      forall i | 0 <= i < |r|
        ensures WellFormedSlot(r[i])
      {
        if i < |head| {
          assert r[i] == head[i];
        } else {
          assert r[i] == rest[i - |head|];
        }
      }
    }
  }

  /** The slots `parse_timings` encodes for a schedule text. */
  function TimingSlots(timeStr: string, matcher: string -> Option<RegexMatch>): seq<WeeklySlot>
    requires ValidMatcher(matcher)
  {
    if timeStr == "" then [] else PartsSlots(Split(timeStr, ','), matcher)
  }

  function Codes(slots: seq<WeeklySlot>): (r: seq<string>)
    ensures |r| == |slots|
    ensures forall i :: 0 <= i < |r| ==> r[i] == Code(slots[i])
  {
    seq(|slots|, i requires 0 <= i < |slots| => Code(slots[i]))
  }

  /**
   * `parse_timings`: None for an empty text or when no code comes out, otherwise
   * the codes joined by commas. Every comma piece of the result is a well-formed
   * code, and the pieces are exactly the codes of `TimingSlots`.
   */
  function ParseTimings(timeStr: string, matcher: string -> Option<RegexMatch>): (r: Option<string>)
    requires ValidMatcher(matcher)
    ensures timeStr == "" ==> r == None
    ensures r.None? <==> TimingSlots(timeStr, matcher) == []
    ensures r.Some? ==> Split(r.value, ',') == Codes(TimingSlots(timeStr, matcher))
    ensures r.Some? ==> forall i :: 0 <= i < |Split(r.value, ',')| ==> WellFormedCode(Split(r.value, ',')[i])
  {
    var slots := TimingSlots(timeStr, matcher);
    if slots == [] then None
    else
      var codes := Codes(slots);
      TimingSlotsWellFormed(timeStr, matcher);
      CodesClean(slots);
      SplitJoin(codes, ',');
      Some(Join(codes, ","))
  }

  lemma TimingSlotsWellFormed(timeStr: string, matcher: string -> Option<RegexMatch>)
    requires ValidMatcher(matcher)
    ensures forall i :: 0 <= i < |TimingSlots(timeStr, matcher)| ==> WellFormedSlot(TimingSlots(timeStr, matcher)[i])
  {
    if timeStr != "" {
      PartsSlotsWellFormed(Split(timeStr, ','), matcher);
    }
  }

  /** The code of a well-formed slot is a well-formed code and holds no comma. */
  lemma CodeClean(s: WeeklySlot)
    requires WellFormedSlot(s)
    ensures ',' !in Code(s) && WellFormedCode(Code(s))
  {
    var c := Code(s);
    assert c[1..] == s.start + s.end;
    assert forall k :: 0 <= k < 4 ==> c[k + 1] == s.start[k] && c[k + 5] == s.end[k];
    assert forall k :: 0 <= k < 9 ==> IsDigit(c[k]) || k == 0;
  }

  lemma CodesClean(slots: seq<WeeklySlot>)
    requires forall i :: 0 <= i < |slots| ==> WellFormedSlot(slots[i])
    ensures forall i :: 0 <= i < |slots| ==> ',' !in Codes(slots)[i] && WellFormedCode(Codes(slots)[i])
  {
    forall i | 0 <= i < |slots|
      ensures ',' !in Codes(slots)[i] && WellFormedCode(Codes(slots)[i])
    {
      CodeClean(slots[i]);
    }
  }

  // ---------------------------------------------------------------------------
  // Properties
  // ---------------------------------------------------------------------------

  /** Decoding one rendered slot gives back its day name, start and end. */
  lemma DecodeSlot(s: WeeklySlot)
    requires |s.start| == 4 && |s.end| == 4
    ensures DecodeCode(Code(s)) == Session(DayName(s.dayDigit), s.start, s.end, None)
  {
    var c := Code(s);
    assert c[1..5] == s.start && c[5..9] == s.end;
  }

  /**
   * Round trip between the catalogue builder and the timetable page: decoding
   * what `parse_timings` wrote gives one session per encoded slot, in order,
   * with the slot's start and end and the day name of its digit.
   */
  lemma EncodeThenDecode(timeStr: string, matcher: string -> Option<RegexMatch>)
    requires ValidMatcher(matcher)
    ensures var slots := TimingSlots(timeStr, matcher);
      ParseTimingStr(ParseTimings(timeStr, matcher))
        == seq(|slots|, i requires 0 <= i < |slots| => Session(DayName(slots[i].dayDigit), slots[i].start, slots[i].end, None))
  {
    var slots := TimingSlots(timeStr, matcher);
    var r := ParseTimings(timeStr, matcher);
    if r.Some? {
      var codes := Codes(slots);
      assert Join(codes, ",") == r.value;
      TimingSlotsWellFormed(timeStr, matcher);
      assert WellFormedCode(codes[0]);
      JoinNonEmpty(codes, ",");
      forall i | 0 <= i < |slots|
        ensures DecodeCode(codes[i]) == Session(DayName(slots[i].dayDigit), slots[i].start, slots[i].end, None)
      {
        assert WellFormedSlot(slots[i]);
        DecodeSlot(slots[i]);
      }
    }
  }

  /**
   * Saturday (`S`, digit 6) and Sunday (`Su`, digit 7) are encoded, but the
   * timetable page's day table stops at Friday, so they decode with no day.
   */
  lemma WeekendDecodesUndefined(s: WeeklySlot)
    requires s.dayDigit == '6' || s.dayDigit == '7'
    requires |s.start| == 4 && |s.end| == 4
    ensures DecodeCode(Code(s)).day == None
  {
    DecodeSlot(s);
  }

  /** The documented example: "MTh 09:30-11:00" gives Monday and Thursday codes. */
  lemma ExampleMondayThursday(m: RegexMatch)
    requires m == RegexMatch("MTh", "09:30", "11:00")
    ensures Codes(MatchSlots(m)) == ["109301100", "409301100"]
  {
    SlotsMTh();
    CodesMTh();
  }

  lemma CodesMTh()
    ensures Codes([WeeklySlot('1', "0930", "1100"), WeeklySlot('4', "0930", "1100")]) == ["109301100", "409301100"]
  {
    var slots := [WeeklySlot('1', "0930", "1100"), WeeklySlot('4', "0930", "1100")];
    MondayCode();
    ThursdayCode();
    var codes := Codes(slots);
    assert codes == [Code(slots[0]), Code(slots[1])];
  }

  lemma MondayCode()
    ensures Code(WeeklySlot('1', "0930", "1100")) == "109301100"
  {
    var c := Code(WeeklySlot('1', "0930", "1100"));
    assert |c| == 9;
    assert forall k :: 0 <= k < 9 ==> c[k] == "109301100"[k];
  }

  lemma ThursdayCode()
    ensures Code(WeeklySlot('4', "0930", "1100")) == "409301100"
  {
    var c := Code(WeeklySlot('4', "0930", "1100"));
    assert |c| == 9;
    assert forall k :: 0 <= k < 9 ==> c[k] == "409301100"[k];
  }

  lemma SlotsMTh()
    ensures MatchSlots(RegexMatch("MTh", "09:30", "11:00"))
      == [WeeklySlot('1', "0930", "1100"), WeeklySlot('4', "0930", "1100")]
  {
    TokenizeMTh();
    FmtTimeCodeExamples();
    var rest := TokenSlots(["Th"], "0930", "1100");
    assert ["Th"][1..] == [];
    assert rest == [WeeklySlot('4', "0930", "1100")];
    assert ["M", "Th"][1..] == ["Th"];
    assert TokenSlots(["M", "Th"], "0930", "1100") == [WeeklySlot('1', "0930", "1100")] + rest;
  }

  lemma TokenizeMTh()
    ensures TokenizeDays("MTh") == ["M", "Th"]
  {
    assert "MTh"[..2] == "MT";
    assert "MT"[0] != "Th"[0];
    assert "MTh"[1..] == "Th";
    assert "Th"[..2] == "Th";
    assert "Th"[2..] == "";
    assert "MTh"[..1] == "M";
  }

  lemma FmtTimeCodeExamples()
    ensures FmtTimeCode("09:30") == "0930"
    ensures FmtTimeCode("11:00") == "1100"
  {
    assert "09:30"[..2] == "09";
    assert "09:30"[3..] == "30";
    DecimalValue2("09");
    assert "11:00"[..2] == "11";
    assert "11:00"[3..] == "00";
    DecimalValue2("11");
  }

  /** "Su" is the tokens `S` and `u`: only Saturday's digit 6 comes out. */
  lemma ExampleSundayIsSaturday()
    ensures TokenSlots(TokenizeDays("Su"), "0900", "1000") == [WeeklySlot('6', "0900", "1000")]
  {
    assert "Su"[..2] == "Su";
    assert "Su"[0] != "Th"[0];
    assert "Su"[..1] == "S";
    assert "Su"[1..] == "u";
    assert "u"[..1] == "u";
    assert "u"[1..] == "";
    assert TokenizeDays("Su") == ["S", "u"];
    assert "u" !in DaysMap;
  }

  // ---------------------------------------------------------------------------
  // Course code and name
  // ---------------------------------------------------------------------------

  /** `clean_course_code`: the stripped text after the last hyphen, or the whole stripped text. */
  function CleanCourseCode(name: string): (r: string)
    ensures name == "" ==> r == ""
    ensures '-' !in name ==> r == Trim(name)
  {
    if name == "" then ""
    else match SplitLast(name, '-')
      case Some((_, after)) => Trim(after)
      case None => Trim(name)
  }

  /** `extract_course_name`: the stripped text before the last hyphen, or the whole stripped text. */
  function ExtractCourseName(name: string): (r: string)
    ensures name == "" ==> r == ""
    ensures '-' !in name ==> r == Trim(name)
  {
    if name == "" then ""
    else match SplitLast(name, '-')
      case Some((before, _)) => Trim(before)
      case None => Trim(name)
  }

  /**
   * Splitting at the last hyphen: for any text `before + "-" + after` whose
   * `after` holds no hyphen, the course name is `before` stripped and the code
   * is `after` stripped.
   */
  lemma SplitAtLastHyphen(before: string, after: string)
    requires '-' !in after
    ensures ExtractCourseName(before + "-" + after) == Trim(before)
    ensures CleanCourseCode(before + "-" + after) == Trim(after)
  {
    var s := before + "-" + after;
    assert s[|before|] == '-';
    var r := SplitLast(s, '-');
    LastHyphenUnique(r.value.0, r.value.1, before, after);
  }

  lemma ExampleMinorProject()
    ensures ExtractCourseName("MINOR PROJECT-AMD5050") == "MINOR PROJECT"
    ensures CleanCourseCode("MINOR PROJECT-AMD5050") == "AMD5050"
  {
    TrimUnchanged("MINOR PROJECT");
    TrimUnchanged("AMD5050");
    assert "MINOR PROJECT-AMD5050" == "MINOR PROJECT" + "-" + "AMD5050";
    SplitAtLastHyphen("MINOR PROJECT", "AMD5050");
  }

  lemma TrimUnchanged(s: string)
    requires |s| > 0 && !IsSpace(s[0]) && !IsSpace(s[|s| - 1])
    ensures Trim(s) == s
  {
  }

  /** Two splits at a hyphen with hyphen-free right halves are the same split. */
  lemma LastHyphenUnique(b1: string, a1: string, b2: string, a2: string)
    requires b1 + "-" + a1 == b2 + "-" + a2
    requires '-' !in a1 && '-' !in a2
    ensures b1 == b2 && a1 == a2
  {
    var s := b1 + "-" + a1;
    forall j | |b1| < j < |s|
      ensures s[j] != '-'
    {
      assert s[j] == a1[j - |b1| - 1];
    }
    forall j | |b2| < j < |s|
      ensures s[j] != '-'
    {
      assert s[j] == a2[j - |b2| - 1];
    }
    assert s[|b1|] == '-' && s[|b2|] == '-';
    assert |b1| == |b2|;
    assert b1 == s[..|b1|] == b2;
    assert a1 == s[|b1| + 1..] == a2;
  }

  // ---------------------------------------------------------------------------
  // Timing columns and the course record
  // ---------------------------------------------------------------------------

  /** The lecture, tutorial and practical texts taken from a CSV row. */
  datatype TimingTexts = TimingTexts(lecture: string, tutorial: string, practical: string)

  /**
   * The columns between the e-mail column and the vacancy column: lecture is
   * column 0 and tutorial column 1; practical is column 2 when there are exactly
   * three columns and column 3 (skipping a separator) when there are more.
   */
  function MapTimingColumns(cols: seq<string>): (r: TimingTexts)
    ensures r.lecture == if |cols| >= 1 then Trim(cols[0]) else ""
    ensures r.tutorial == if |cols| >= 2 then Trim(cols[1]) else ""
    ensures |cols| < 3 ==> r.practical == ""
    ensures |cols| == 3 ==> r.practical == Trim(cols[2])
    ensures |cols| >= 4 ==> r.practical == Trim(cols[3])
  {
    TimingTexts(
      if |cols| >= 1 then Trim(cols[0]) else "",
      if |cols| >= 2 then Trim(cols[1]) else "",
      if |cols| == 3 then Trim(cols[2]) else if |cols| >= 4 then Trim(cols[3]) else "")
  }

  /**
   * The timing-column selection of `main`. With an e-mail column, the timing
   * columns run from just after it up to (not including) the second-to-last
   * column; without one, fixed offsets are used for the two known layouts
   * (units at column 5 with more than 13 columns, units at column 4 with more
   * than 8).
   */
  function SelectTimingTexts(row: seq<string>, emailIdx: Option<nat>, unitsIdx: int): (r: TimingTexts)
    requires emailIdx.Some? ==> emailIdx.value < |row|
    ensures emailIdx.Some? && |row| - 2 > emailIdx.value + 1 ==>
      r == MapTimingColumns(row[emailIdx.value + 1..|row| - 2])
    ensures emailIdx.Some? && |row| - 2 <= emailIdx.value + 1 ==> r == TimingTexts("", "", "")
    ensures emailIdx.None? && unitsIdx == 5 && |row| > 13 ==>
      r == TimingTexts(Trim(row[10]), Trim(row[11]), Trim(row[13]))
    ensures emailIdx.None? && unitsIdx == 5 && |row| <= 13 ==> r == TimingTexts("", "", "")
    ensures emailIdx.None? && unitsIdx == 4 && |row| > 8 ==>
      r == TimingTexts(Trim(row[8]), if |row| > 9 then Trim(row[9]) else "", if |row| > 10 then Trim(row[10]) else "")
    ensures emailIdx.None? && unitsIdx == 4 && |row| <= 8 ==> r == TimingTexts("", "", "")
    ensures emailIdx.None? && unitsIdx != 5 && unitsIdx != 4 ==> r == TimingTexts("", "", "")
  {
    match emailIdx
    case Some(e) =>
      var vacancy := |row| - 2;
      if vacancy > e + 1 then MapTimingColumns(row[e + 1..vacancy]) else TimingTexts("", "", "")
    case None =>
      if unitsIdx == 5 && |row| > 13 then
        TimingTexts(Trim(row[10]), Trim(row[11]), Trim(row[13]))
      else if unitsIdx == 4 && |row| > 8 then
        TimingTexts(
          Trim(row[8]),
          if |row| > 9 then Trim(row[9]) else "",
          if |row| > 10 then Trim(row[10]) else "")
      else TimingTexts("", "", "")
  }

  /**
   * With an e-mail column at `e`, the texts come from the row's own columns: the
   * lecture from column `e + 1`, the tutorial from `e + 2` when the row is long
   * enough, and the practical from `e + 3` when exactly three timing columns sit
   * before the vacancy column and from `e + 4` (past a separator) when more do.
   */
  lemma AnchoredColumns(row: seq<string>, e: nat)
    requires e < |row|
    ensures var r := SelectTimingTexts(row, Some(e), 0);
      && r.lecture == (if |row| >= e + 4 then Trim(row[e + 1]) else "")
      && r.tutorial == (if |row| >= e + 5 then Trim(row[e + 2]) else "")
      && r.practical == (if |row| == e + 6 then Trim(row[e + 3]) else if |row| >= e + 7 then Trim(row[e + 4]) else "")
  {
    if |row| >= e + 4 {
      assert SelectTimingTexts(row, Some(e), 0) == MapTimingColumns(row[e + 1..|row| - 2]);
      SliceColumns(row, e);
    }
  }

  lemma SliceColumns(row: seq<string>, e: nat)
    requires e + 4 <= |row|
    ensures var r := MapTimingColumns(row[e + 1..|row| - 2]);
      && r.lecture == Trim(row[e + 1])
      && r.tutorial == (if |row| >= e + 5 then Trim(row[e + 2]) else "")
      && r.practical == (if |row| == e + 6 then Trim(row[e + 3]) else if |row| >= e + 7 then Trim(row[e + 4]) else "")
  {
    var cols := row[e + 1..|row| - 2];
    assert |cols| == |row| - e - 3;
    assert cols[0] == row[e + 1];
    assert |cols| >= 2 ==> cols[1] == row[e + 2];
    assert |cols| >= 3 ==> cols[2] == row[e + 3];
    assert |cols| >= 4 ==> cols[3] == row[e + 4];
  }

  /**
   * The two layouts the builder knows are read the same way whether or not the
   * e-mail column is found: the standard row (e-mail at 9, 17 columns) gives
   * columns 10, 11 and 13, as the units-at-5 fallback does, and the compressed
   * row (e-mail at 7, 13 columns) gives columns 8, 9 and 10, as the units-at-4
   * fallback does.
   */
  lemma LayoutsAgree(row: seq<string>, unitsIdx: int)
    ensures |row| == 17 ==> SelectTimingTexts(row, Some(9), unitsIdx) == SelectTimingTexts(row, None, 5)
    ensures |row| == 13 ==> SelectTimingTexts(row, Some(7), unitsIdx) == SelectTimingTexts(row, None, 4)
  {
    if |row| == 17 {
      AnchoredColumns(row, 9);
      assert SelectTimingTexts(row, None, 5) == TimingTexts(Trim(row[10]), Trim(row[11]), Trim(row[13]));
    } else if |row| == 13 {
      AnchoredColumns(row, 7);
      assert SelectTimingTexts(row, None, 4) == TimingTexts(Trim(row[8]), Trim(row[9]), Trim(row[10]));
    }
  }

  /**
   * The course record written for a CSV row: skipped when the code is empty;
   * otherwise the lecture timing is the encoded lecture text, and the tutorial
   * timing, lab timing and lecture hall start out null.
   */
  function BuildCourse(rawName: string, units: string, slotName: string, lectureText: string,
                       matcher: string -> Option<RegexMatch>): (r: Option<Course>)
    requires ValidMatcher(matcher)
    ensures r.None? <==> CleanCourseCode(Trim(rawName)) == ""
    ensures r.Some? ==>
      (r.value.courseCode == CleanCourseCode(Trim(rawName))
       && r.value.courseName == ExtractCourseName(Trim(rawName))
       && r.value.slot.lectureTiming == ParseTimings(lectureText, matcher)
       && r.value.slot.tutorialTiming == None && r.value.slot.labTiming == None
       && r.value.lectureHall == None)
    ensures r.Some? ==> r.value.creditStructure == units && r.value.slot.name == (if slotName == "" then "X" else slotName)
  {
    var raw := Trim(rawName);
    var code := CleanCourseCode(raw);
    if code == "" then None
    else
      Some(Course(code, ExtractCourseName(raw), units, None,
        Slot(if slotName == "" then "X" else slotName, ParseTimings(lectureText, matcher), None, None)))
  }

  /**
   * The lecture timing written into a course record reads back, on the
   * timetable page, as one session per encoded slot of the lecture text.
   */
  lemma BuildCourseDecodes(rawName: string, units: string, slotName: string, lectureText: string,
                           matcher: string -> Option<RegexMatch>)
    requires ValidMatcher(matcher)
    requires BuildCourse(rawName, units, slotName, lectureText, matcher).Some?
    ensures var slots := TimingSlots(lectureText, matcher);
      ParseTimingStr(BuildCourse(rawName, units, slotName, lectureText, matcher).value.slot.lectureTiming)
        == seq(|slots|, i requires 0 <= i < |slots| => Session(DayName(slots[i].dayDigit), slots[i].start, slots[i].end, None))
  {
    EncodeThenDecode(lectureText, matcher);
  }
}
