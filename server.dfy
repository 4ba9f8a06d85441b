/**
 * src/server.js: the chat bot's webhook handler. A text message is read as
 * a chart request, a price report ("週一上午 100"), a clear-all or a help
 * command, in that order; a price report is written into the `prices`
 * column of the user's row and echoed back.
 */
module Server {
  import opened Wrappers
  import opened Store
  import JsText
  import Model
  import Chart

  /** `zhTWNumberMap`: the Chinese weekday numerals, Monday = 1 .. Saturday = 6. */
  const ZhTWNumberMap: map<string, int> := map["一" := 1, "二" := 2, "三" := 3, "四" := 4, "五" := 5, "六" := 6]

  /** The day alternatives `(一|二|三|四|五|六)` of the report pattern. */
  const DayChars: string := "一二三四五六"

  const ChartKeyword: string := "我的分析圖"
  const ClearAllCommand: string := "清除全部資料"
  const HelpCommand: string := "幫助"

  predicate Spaces(s: string) {
    JsText.AllSatisfy(s, JsText.IsJsSpace)
  }

  predicate Digits(s: string) {
    JsText.AllSatisfy(s, JsText.IsDecDigit)
  }

  /**
   * One match of `^\s*(週|星期)(一|二|三|四|五|六)\s*(上|下)午\s*(\d+)\s*$`,
   * split into its pieces; `day`, `half` and `digits` are groups 2, 3 and 4.
   */
  datatype ReportMatch = ReportMatch(
    lead: string, week: string, day: char, gap1: string,
    half: char, gap2: string, digits: string, trail: string)

  predicate WellFormed(m: ReportMatch) {
    && Spaces(m.lead)
    && (m.week == "週" || m.week == "星期")
    && m.day in DayChars
    && Spaces(m.gap1)
    && (m.half == '上' || m.half == '下')
    && Spaces(m.gap2)
    && |m.digits| > 0 && Digits(m.digits)
    && Spaces(m.trail)
  }

  /** The text a match covers. */
  function Assemble(m: ReportMatch): string {
    m.lead + Body(m)
  }

  /** The text a match covers after its leading blanks. */
  function Body(m: ReportMatch): string {
    m.week + ([m.day] + HalfDayText(m.gap1, m.half, AmountText(m.gap2, m.digits, m.trail)))
  }

  /** The text `\s*(\d+)\s*$` covers. */
  function AmountText(gap: string, digits: string, trail: string): string {
    gap + (digits + trail)
  }

  /** The text `\s*(上|下)午` covers, followed by `rest`. */
  function HalfDayText(gap: string, half: char, rest: string): string {
    gap + ([half, '午'] + rest)
  }

  /** `\s*(\d+)\s*$`: the blanks, the digits and the trailing blanks. */
  function MatchAmount(s: string): (r: Option<(string, string, string)>)
    ensures r.Some? ==> Spaces(r.value.0) && |r.value.1| > 0 && Digits(r.value.1) && Spaces(r.value.2)
    ensures r.Some? ==> AmountText(r.value.0, r.value.1, r.value.2) == s
  {
    var c := JsText.Span(s, JsText.IsJsSpace);
    var s1 := s[c..];
    var d := JsText.Span(s1, JsText.IsDecDigit);
    var s2 := s1[d..];
    if d == 0 || JsText.Span(s2, JsText.IsJsSpace) != |s2| then None
    else
      JsText.SpanSplits(s, JsText.IsJsSpace);
      JsText.SpanSplits(s1, JsText.IsDecDigit);
      JsText.SpanSplits(s2, JsText.IsJsSpace);
      assert s2[..|s2|] == s2;
      Some((s[..c], s1[..d], s2))
  }

  lemma MatchAmountComplete(gap: string, digits: string, trail: string)
    requires Spaces(gap) && |digits| > 0 && Digits(digits) && Spaces(trail)
    ensures MatchAmount(AmountText(gap, digits, trail)) == Some((gap, digits, trail))
  {
    var s := AmountText(gap, digits, trail);
    JsText.SpanAfterPrefix(gap, digits + trail, JsText.IsJsSpace);
    assert s[|gap|..] == digits + trail && s[..|gap|] == gap;
    assert |trail| > 0 ==> JsText.IsJsSpace(trail[0]);
    JsText.SpanAfterPrefix(digits, trail, JsText.IsDecDigit);
    assert (digits + trail)[|digits|..] == trail && (digits + trail)[..|digits|] == digits;
    JsText.SpanAfterPrefix(trail, [], JsText.IsJsSpace);
    assert trail + [] == trail;
  }

  /** `\s*(上|下)午` followed by the amount. */
  function MatchHalfDay(s: string): (r: Option<(string, char, (string, string, string))>)
    ensures r.Some? ==> Spaces(r.value.0) && (r.value.1 == '上' || r.value.1 == '下')
    ensures r.Some? ==> var x := r.value.2;
      && Spaces(x.0) && |x.1| > 0 && Digits(x.1) && Spaces(x.2)
      && HalfDayText(r.value.0, r.value.1, AmountText(x.0, x.1, x.2)) == s
  {
    var b := JsText.Span(s, JsText.IsJsSpace);
    var s1 := s[b..];
    if |s1| < 2 || !(s1[0] == '上' || s1[0] == '下') || s1[1] != '午' then None
    else
      match MatchAmount(s1[2..])
      case None => None
      case Some(x) =>
        JsText.SpanSplits(s, JsText.IsJsSpace);
        JsText.SplitTwo(s1);
        Some((s[..b], s1[0], x))
  }

  lemma MatchHalfDayComplete(gap: string, half: char, gap2: string, digits: string, trail: string)
    requires Spaces(gap) && (half == '上' || half == '下')
    requires Spaces(gap2) && |digits| > 0 && Digits(digits) && Spaces(trail)
    ensures MatchHalfDay(HalfDayText(gap, half, AmountText(gap2, digits, trail)))
         == Some((gap, half, (gap2, digits, trail)))
  {
    var rest := AmountText(gap2, digits, trail);
    var s := HalfDayText(gap, half, rest);
    JsText.SpanAfterPrefix(gap, [half, '午'] + rest, JsText.IsJsSpace);
    assert s[|gap|..] == [half, '午'] + rest && s[..|gap|] == gap;
    assert ([half, '午'] + rest)[2..] == rest;
    MatchAmountComplete(gap2, digits, trail);
  }

  /** 1 for "週", 2 for "星期", 0 when neither starts `s`. */
  function WeekWordLength(s: string): (n: nat)
    ensures n <= |s|
    ensures n == 1 ==> s[..1] == "週"
    ensures n == 2 ==> s[..2] == "星期"
  {
    if |s| >= 1 && s[0] == '週' then 1
    else if |s| >= 2 && s[0] == '星' && s[1] == '期' then 2
    else 0
  }

  /** The pattern after its leading `\s*`: `(週|星期)(一|...|六)`, then the half-day and amount. */
  function MatchWeekDay(s: string): (r: Option<ReportMatch>)
    ensures r.Some? ==> r.value.lead == "" && WellFormed(r.value) && Body(r.value) == s
  {
    var w := WeekWordLength(s);
    if w == 0 || |s| <= w || s[w] !in DayChars then None
    else
      match MatchHalfDay(s[w + 1..])
      case None => None
      case Some(h) =>
        JsText.SplitAround(s, w);
        Some(ReportMatch("", s[..w], s[w], h.0, h.1, h.2.0, h.2.1, h.2.2))
  }

  /** The week word is measured exactly, whatever follows it. */
  lemma WeekWordOf(week: string, rest: string)
    requires week == "週" || week == "星期"
    ensures WeekWordLength(week + rest) == |week|
    ensures (week + rest)[..|week|] == week && (week + rest)[|week|..] == rest
  {
    var s := week + rest;
    if week == "週" { assert s[0] == '週'; }
    else { assert s[0] == '星' && s[1] == '期'; }
  }

  lemma MatchWeekDayComplete(m: ReportMatch)
    requires WellFormed(m) && m.lead == ""
    ensures MatchWeekDay(Body(m)) == Some(m)
  {
    var r2 := HalfDayText(m.gap1, m.half, AmountText(m.gap2, m.digits, m.trail));
    var rest := [m.day] + r2;
    WeekWordOf(m.week, rest);
    assert rest[0] == m.day && rest[1..] == r2;
    var w := |m.week|;
    assert Body(m)[w + 1..] == r2 by {
      assert Body(m)[w..] == rest;
    }
    MatchHalfDayComplete(m.gap1, m.half, m.gap2, m.digits, m.trail);
  }

  /** `inputRe.exec(text)`: the report pattern, read left to right. */
  function MatchReport(text: string): (r: Option<ReportMatch>)
    ensures r.Some? ==> WellFormed(r.value) && Assemble(r.value) == text
  {
    var a := JsText.Span(text, JsText.IsJsSpace);
    match MatchWeekDay(text[a..])
    case None => None
    case Some(m) =>
      JsText.SpanSplits(text, JsText.IsJsSpace);
      Some(m.(lead := text[..a]))
  }

  /** Every well-formed report text is recognised, and split exactly as it was built. */
  lemma MatchReportComplete(m: ReportMatch)
    requires WellFormed(m)
    ensures MatchReport(Assemble(m)) == Some(m)
  {
    var rest := m.(lead := "");
    var text := Assemble(m);
    var r1 := Body(rest);
    assert text == m.lead + r1;
    JsText.SpanAfterPrefix(m.lead, r1, JsText.IsJsSpace);
    assert text[|m.lead|..] == r1 && text[..|m.lead|] == m.lead;
    MatchWeekDayComplete(rest);
  }

  /** `(zhTWNumberMap[day] - 1) * 2 + (ampm === "上" ? 1 : 2)`. */
  function ReportIndex(m: ReportMatch): (index: nat)
    requires WellFormed(m)
    ensures 1 <= index <= 12
    ensures index % 2 == 1 <==> m.half == '上'
  {
    assert [m.day] in ZhTWNumberMap;
    (ZhTWNumberMap[[m.day]] - 1) * 2 + (if [m.half] == "上" then 1 else 2)
  }

  /** The chat bot and the web model number the slots the same way. */
  lemma ReportIndexAgreesWithModel(m: ReportMatch)
    requires WellFormed(m)
    ensures Model.SlotIndex(Some([m.day]), Some([m.half])) == Some(ReportIndex(m))
  {
    assert [m.day] in ZhTWNumberMap && [m.day] in Model.DayMap;
    assert Model.DayMap[[m.day]] == ZhTWNumberMap[[m.day]];
    assert Model.IsMorning([m.half]) <==> m.half == '上';
  }

  /** `kw` occurs in `text` starting at position `i`. */
  predicate OccursAt(text: string, kw: string, i: int) {
    0 <= i <= |text| - |kw| && text[i..i + |kw|] == kw
  }

  /** `/我的分析圖/g.test(text)`: `kw` occurs somewhere in `text`. */
  predicate Contains(text: string, kw: string): (found: bool)
    ensures found ==> exists i :: OccursAt(text, kw, i)
    decreases |text|
  {
    assert |kw| < |text| && Contains(text[1..], kw) ==> exists i :: OccursAt(text, kw, i) by {
      if |kw| < |text| && Contains(text[1..], kw) {
        var i :| OccursAt(text[1..], kw, i);
        assert OccursAt(text, kw, i + 1);
      }
    }
    assert |kw| <= |text| && text[..|kw|] == kw ==> OccursAt(text, kw, 0);
    |kw| <= |text| && (text[..|kw|] == kw || (|text| > 0 && Contains(text[1..], kw)))
  }

  lemma {:induction false} ContainsAnywhere(prefix: string, kw: string, suffix: string)
    ensures Contains(prefix + kw + suffix, kw)
    decreases |prefix|
  {
    var text := prefix + kw + suffix;
    if prefix == [] {
      assert text[..|kw|] == kw;
    } else {
      ContainsAnywhere(prefix[1..], kw, suffix);
      assert text[1..] == prefix[1..] + kw + suffix;
    }
  }

  lemma {:induction false} ContainsFirstChar(text: string, kw: string)
    requires |kw| > 0 && Contains(text, kw)
    ensures exists i :: 0 <= i < |text| && text[i] == kw[0]
    decreases |text|
  {
    if text[..|kw|] != kw {
      ContainsFirstChar(text[1..], kw);
      var i :| 0 <= i < |text[1..]| && text[1..][i] == kw[0];
      assert text[i + 1] == kw[0];
    } else {
      assert text[0] == kw[0];
    }
  }

  lemma ContainsNeedsFirstChar(text: string, kw: string)
    requires |kw| > 0 && forall i :: 0 <= i < |text| ==> text[i] != kw[0]
    ensures !Contains(text, kw)
  {
    if Contains(text, kw) {
      ContainsFirstChar(text, kw);
    }
  }

  /** The characters a report text can be made of. */
  predicate ReportChar(c: char) {
    JsText.IsJsSpace(c) || JsText.IsDecDigit(c) || c in "週星期一二三四五六上下午"
  }

  lemma AllConcat(x: string, y: string, p: char -> bool)
    requires JsText.AllSatisfy(x, p) && JsText.AllSatisfy(y, p)
    ensures JsText.AllSatisfy(x + y, p)
  {
    forall i | 0 <= i < |x + y| ensures p((x + y)[i]) {
      if i >= |x| {
        assert (x + y)[i] == y[i - |x|];
      }
    }
  }

  lemma ReportCharsOnly(m: ReportMatch)
    requires WellFormed(m)
    ensures JsText.AllSatisfy(Assemble(m), ReportChar)
  {
    AllConcat(m.digits, m.trail, ReportChar);
    AllConcat(m.gap2, m.digits + m.trail, ReportChar);
    var r5 := m.gap2 + (m.digits + m.trail);
    AllConcat([m.half, '午'], r5, ReportChar);
    var r4 := [m.half, '午'] + r5;
    AllConcat(m.gap1, r4, ReportChar);
    AllConcat([m.day], m.gap1 + r4, ReportChar);
    var r2 := [m.day] + (m.gap1 + r4);
    assert JsText.AllSatisfy(m.week, ReportChar);
    AllConcat(m.week, r2, ReportChar);
    AllConcat(m.lead, m.week + r2, ReportChar);
  }

  /** A price report can never also be a chart request, so their order does not matter. */
  lemma ReportIsNoChartRequest(m: ReportMatch)
    requires WellFormed(m)
    ensures !Contains(Assemble(m), ChartKeyword)
  {
    ReportCharsOnly(m);
    if Contains(Assemble(m), ChartKeyword) {
      ContainsFirstChar(Assemble(m), ChartKeyword);
    }
  }

  datatype Command = ShowChart | PriceReport(m: ReportMatch) | ClearAll | Help | Unrecognized

  /** Which branch of `handleEvent` a text message takes. */
  function Classify(text: string): (c: Command)
    ensures c.PriceReport? ==> WellFormed(c.m) && Assemble(c.m) == text
  {
    if Contains(text, ChartKeyword) then ShowChart
    else match MatchReport(text)
      case Some(m) => PriceReport(m)
      case None =>
        if text == ClearAllCommand then ClearAll
        else if text == HelpCommand then Help
        else Unrecognized
  }

  /** Any text with the chart keyword anywhere in it asks for the chart. */
  lemma ChartKeywordWins(prefix: string, suffix: string)
    ensures Classify(prefix + ChartKeyword + suffix) == ShowChart
  {
    ContainsAnywhere(prefix, ChartKeyword, suffix);
  }

  /** A text is a price report exactly when it matches the report pattern. */
  lemma PriceReportIffPattern(text: string)
    ensures Classify(text).PriceReport? <==> MatchReport(text).Some?
    ensures MatchReport(text).Some? ==> Classify(text) == PriceReport(MatchReport(text).value)
  {
    if MatchReport(text).Some? {
      ReportIsNoChartRequest(MatchReport(text).value);
    }
  }

  /** A text that starts with neither a blank nor the first letter of 週 or 星期 is no report. */
  lemma NoReportWithoutWeekWord(text: string)
    requires |text| > 0 && !JsText.IsJsSpace(text[0]) && text[0] != '週' && text[0] != '星'
    ensures MatchReport(text).None?
  {
    assert JsText.Span(text, JsText.IsJsSpace) == 0;
    assert text[0..] == text;
    assert WeekWordLength(text) == 0;
  }

  /** Clear-all fires only on the exact text, with nothing around it. */
  lemma ClearAllExact(text: string)
    ensures Classify(text) == ClearAll <==> text == ClearAllCommand
  {
    if text == ClearAllCommand {
      ContainsNeedsFirstChar(text, ChartKeyword);
      NoReportWithoutWeekWord(text);
    }
  }

  /** Help fires only on the exact text, with nothing around it. */
  lemma HelpExact(text: string)
    ensures Classify(text) == Help <==> text == HelpCommand
  {
    if text == HelpCommand {
      NoReportWithoutWeekWord(text);
    }
  }

  /**
   * `週{day} {ampm}午 {price} 鈴錢`: the captured groups written back as a
   * report in canonical form, followed by the currency word.
   */
  function ReplyText(m: ReportMatch): (r: string)
    ensures r == Assemble(Canonical(m)) + " 鈴錢"
  {
    assert "週" + [m.day] + " " + [m.half] + "午 " == ['週', m.day, ' ', m.half, '午', ' '];
    CanonicalShape(m);
    "週" + [m.day] + " " + [m.half] + "午 " + m.digits + " 鈴錢"
  }

  /** The report written the way the reply writes it: "週", single spaces, no padding. */
  function Canonical(m: ReportMatch): ReportMatch {
    ReportMatch("", "週", m.day, " ", m.half, " ", m.digits, "")
  }

  /** The canonical report text is the same six characters followed by the digits. */
  lemma CanonicalShape(m: ReportMatch)
    ensures Assemble(Canonical(m)) == ['週', m.day, ' ', m.half, '午', ' '] + m.digits
  {
    assert AmountText(" ", m.digits, "") == [' '] + m.digits;
    assert HalfDayText(" ", m.half, [' '] + m.digits) == [' ', m.half, '午', ' '] + m.digits;
  }

  /**
   * The reply echoes the captured day, half-day and digits: without its
   * trailing " 鈴錢" it is itself a report with the same groups and slot.
   */
  lemma ReplyEchoesReport(m: ReportMatch)
    requires WellFormed(m)
    ensures MatchReport(Assemble(Canonical(m))) == Some(Canonical(m))
    ensures Canonical(m).day == m.day && Canonical(m).half == m.half && Canonical(m).digits == m.digits
    ensures ReportIndex(Canonical(m)) == ReportIndex(m)
  {
    assert WellFormed(Canonical(m));
    MatchReportComplete(Canonical(m));
  }

  /** The table after a price report from `userId`. */
  function RecordReport(t: Table, userId: string, m: ReportMatch): (r: Table)
    requires TableOk(t) && WellFormed(m)
    ensures TableOk(r)
    ensures r.Keys == t.Keys + {userId}
    ensures forall u :: u != userId ==> RowsOf(r, u) == RowsOf(t, u)
  {
    var index := ReportIndex(m);
    var records := RowsOf(t, userId);
    if |records| == 1 && records[0].prices.Some? then
      assert RowOk(records[0]);
      t[userId := SetPrices(records, WriteSlot(records[0].prices.value, Some(index), Text(m.digits)))]
    else
      Insert(t, userId, Row(None, Some(WriteSlot(Zeros(), Some(index), Text(m.digits)))))
  }

  /**
   * A report for a user who has exactly one row, and whose row has a
   * `prices` column, rewrites only slot `index` of it, with the captured
   * digits as text.
   */
  lemma RecordReportExisting(t: Table, userId: string, m: ReportMatch)
    requires TableOk(t) && WellFormed(m)
    requires |RowsOf(t, userId)| == 1 && t[userId][0].prices.Some?
    ensures var old_row := t[userId][0];
      var rows := RowsOf(RecordReport(t, userId, m), userId);
      && |rows| == 1
      && rows[0].values == old_row.values
      && rows[0].prices.Some?
      && var p := rows[0].prices.value;
      && |p| == SlotCount
      && forall j :: 0 <= j < SlotCount ==>
           p[j] == if j == ReportIndex(m) then Text(m.digits) else old_row.prices.value[j]
  {
    assert RowOk(t[userId][0]);
  }

  /**
   * Otherwise a new row is added whose `prices` are 13 zeros but for the
   * captured digits at slot `index`; the user's earlier rows stay.
   */
  lemma RecordReportNew(t: Table, userId: string, m: ReportMatch)
    requires TableOk(t) && WellFormed(m)
    requires !(|RowsOf(t, userId)| == 1 && t[userId][0].prices.Some?)
    ensures var rows := RowsOf(RecordReport(t, userId, m), userId);
      && |rows| == |RowsOf(t, userId)| + 1
      && rows[..|rows| - 1] == RowsOf(t, userId)
      && rows[|rows| - 1].values.None?
      && rows[|rows| - 1].prices.Some?
      && var p := rows[|rows| - 1].prices.value;
      && |p| == SlotCount
      && forall j :: 0 <= j < SlotCount ==>
           p[j] == if j == ReportIndex(m) then Text(m.digits) else Num(0)
  {
  }

  /**
   * Reports sent to the bot land in the `prices` column, which `getPrices`
   * never reads: what the web model sees is unchanged, except that a user
   * with no row now has one and reads 13 zeros instead of failing.
   */
  lemma ChatReportInvisibleToGetPrices(t: Table, userId: string, m: ReportMatch)
    requires TableOk(t) && WellFormed(m)
    ensures userId in t ==> Model.PricesOf(RecordReport(t, userId, m), userId) == Model.PricesOf(t, userId)
    ensures userId !in t ==> Model.PricesOf(RecordReport(t, userId, m), userId) == Success(Zeros())
  {
  }

  datatype Message = Message(kind: string, text: string)

  datatype Event = Event(kind: string, message: Message, userId: string)

  predicate IsTextMessage(e: Event) {
    e.kind == "message" && e.message.kind == "text"
  }

  /**
   * The outcome of `handleEvent`: the `null` it resolves to for events it
   * ignores, the message it sends through `client.replyMessage` (the chart
   * image or a text), or the `undefined` it resolves to for a text it does
   * not understand.
   */
  datatype Reply = Ignored | ImageReply(filter: seq<Chart.JsValue>) | TextReply(text: string) | Unanswered

  /** The hard-coded observation vector the chart reply is drawn from. */
  const SampleFilter: seq<Chart.JsValue> := [
    Chart.Number(93.0), Chart.Null, Chart.Null, Chart.Number(180.0), Chart.Number(356.0),
    Chart.Null, Chart.Null, Chart.Null, Chart.Null, Chart.Null, Chart.Null, Chart.Null, Chart.Null]

  /** The reply `handleEvent` sends for a text message of the given kind. */
  function Answer(c: Command): Reply {
    match c
    case ShowChart => ImageReply(SampleFilter)
    case PriceReport(m) => TextReply(ReplyText(m))
    case ClearAll => TextReply(ClearAllCommand)
    case Help => TextReply(HelpCommand)
    case Unrecognized => Unanswered
  }

  /** The table after a text message of the given kind from `userId`: only a price report writes. */
  function Apply(t: Table, userId: string, c: Command): Table
    requires TableOk(t)
    requires c.PriceReport? ==> WellFormed(c.m)
  {
    if c.PriceReport? then RecordReport(t, userId, c.m) else t
  }

  function Respond(e: Event): Reply {
    if IsTextMessage(e) then Answer(Classify(e.message.text)) else Ignored
  }

  /** The table after `handleEvent(e)`. */
  function StoreAfter(t: Table, e: Event): Table
    requires TableOk(t)
  {
    if IsTextMessage(e) then Apply(t, e.userId, Classify(e.message.text)) else t
  }

  /** Clear-all only answers: nothing is cleared. */
  lemma ClearAllKeepsData(t: Table, e: Event)
    requires TableOk(t) && IsTextMessage(e) && e.message.text == ClearAllCommand
    ensures Respond(e) == TextReply(ClearAllCommand)
    ensures StoreAfter(t, e) == t
  {
    ClearAllExact(e.message.text);
  }

  /**
   * A text message that is no chart request, no report and neither exact
   * command gets no reply and writes nothing.
   */
  lemma OtherTextUnanswered(t: Table, e: Event)
    requires TableOk(t) && IsTextMessage(e)
    ensures Classify(e.message.text) == Unrecognized <==>
      && !Contains(e.message.text, ChartKeyword)
      && MatchReport(e.message.text).None?
      && e.message.text != ClearAllCommand
      && e.message.text != HelpCommand
    ensures Classify(e.message.text) == Unrecognized ==> Respond(e) == Unanswered && StoreAfter(t, e) == t
  {
  }

  /** Non-text events are answered with null and write nothing. */
  lemma NonTextIgnored(t: Table, e: Event)
    requires TableOk(t) && !IsTextMessage(e)
    ensures Respond(e) == Ignored && StoreAfter(t, e) == t
  {
  }

  /**
   * The chart reply ignores the user's data: it always draws the sample
   * vector, whose buy price is 93 and whose only daily prices are 180 and 356.
   */
  lemma ChartReplyShowsSample<P>(tr: string -> string, engine: Chart.Engine<P>, e: Event)
    requires IsTextMessage(e) && Contains(e.message.text, ChartKeyword)
    ensures Respond(e) == ImageReply(SampleFilter)
    ensures var ds := Chart.GenerateData(tr, engine, SampleFilter);
      && (forall i :: 0 <= i < Chart.Points ==> ds[0].data[i] == Chart.Number(93.0))
      && ds[2].data[2] == Chart.Number(180.0) && ds[2].data[3] == Chart.Number(356.0)
      && forall i :: 0 <= i < Chart.Points && i != 2 && i != 3 ==> ds[2].data[i] == Chart.Null
  {
    Chart.BuyPriceSeries(tr, engine, SampleFilter);
    Chart.DailyPriceSeries(tr, engine, SampleFilter);
  }

  /** The write half of the price-report branch: update the user's one row, or insert one. */
  method SaveReport(db: PricesTable, userId: string, m: ReportMatch)
    requires db.Valid() && WellFormed(m)
    modifies db
    ensures db.Valid()
    ensures db.rows == RecordReport(old(db.rows), userId, m)
  {
    var index := ReportIndex(m);
    var records := RowsOf(db.rows, userId);
    if |records| == 1 && records[0].prices.Some? {
      assert RowOk(records[0]);
      var prices := ParseAndWrite(records[0].prices.value, Some(index), Text(m.digits));
      db.rows := db.rows[userId := SetPrices(records, prices)];
    } else {
      var prices := ParseAndWrite(Zeros(), Some(index), Text(m.digits));
      db.rows := Insert(db.rows, userId, Row(None, Some(prices)));
    }
  }

  method HandleEvent(db: PricesTable, event: Event) returns (reply: Reply)
    requires db.Valid()
    modifies db
    ensures db.Valid()
    ensures reply == Respond(event)
    ensures db.rows == StoreAfter(old(db.rows), event)
  {
    if event.kind != "message" || event.message.kind != "text" {
      return Ignored;
    }
    reply := HandleText(db, event.userId, event.message.text);
  }

  /** `handleEvent` once the event is known to be a text message. */
  method HandleText(db: PricesTable, userId: string, text: string) returns (reply: Reply)
    requires db.Valid()
    modifies db
    ensures db.Valid()
    ensures reply == Answer(Classify(text))
    ensures db.rows == Apply(old(db.rows), userId, Classify(text))
  {
    if Contains(text, ChartKeyword) {
      assert Classify(text) == ShowChart;
      return ImageReply(SampleFilter);
    }
    var found := MatchReport(text);
    if found.Some? {
      var m := found.value;
      assert Classify(text) == PriceReport(m);
      SaveReport(db, userId, m);
      return TextReply(ReplyText(m));
    }
    if text == ClearAllCommand {
      assert Classify(text) == ClearAll;
      return TextReply(ClearAllCommand);
    }
    if text == HelpCommand {
      assert Classify(text) == Help;
      return TextReply(HelpCommand);
    }
    assert Classify(text) == Unrecognized;
    return Unanswered;
  }
}
