/** The ticker of a calendar schedule: its text form, its search for the next tick, and the scheduler's loop. */
module ScheduledTicker {
  import opened Options
  import opened Calendar
  import opened Clock
  import opened Schedule
  import opened ScheduleSearch
  import opened ScheduleText
  import opened Texts
  import Numerals

  // ---------- Names of values ----------

  /** A number as `strconv.Atoi` reads it: digits with an optional sign. */
  function Atoi(t: string): Option<int> {
    var digits := if t != "" && (t[0] == '+' || t[0] == '-') then t[1..] else t;
    if digits == "" || !Numerals.AllDigits(digits) then None
    else if t[0] == '-' then Some(0 - Numerals.Read(digits))
    else Some(Numerals.Read(digits))
  }

  function ReadNumber(lo: int, hi: int): string -> Option<int> {
    t => match Atoi(t) case None => None case Some(v) => if lo <= v <= hi then Some(v) else None
  }

  function NumberName(v: int): string {
    if v < 0 then "-" + Numerals.Render(-v) else Numerals.Render(v)
  }

  const MONTHS: seq<seq<string>> := [
    ["1", "jan", "january"], ["2", "feb", "february"], ["3", "mar", "march"], ["4", "apr", "april"],
    ["5", "may"], ["6", "jun", "june"], ["7", "jul", "july"], ["8", "aug", "august"],
    ["9", "sep", "september"], ["10", "oct", "october"], ["11", "nov", "november"], ["12", "dec", "december"]]

  const WEEKDAYS: seq<seq<string>> := [
    ["sun", "sunday"], ["mon", "monday"], ["tue", "tuesday"], ["wed", "wednesday"], ["thu", "thursday"],
    ["fri", "friday"], ["sat", "saturday"]]

  /** The first row of a table of names that holds `t`. */
  function Row(t: string, table: seq<seq<string>>): (r: Option<nat>)
    ensures r.Some? ==> r.value < |table| && t in table[r.value]
    ensures forall i | 0 <= i < |table| && t in table[i] :: r.Some? && r.value <= i
  {
    if table == [] then None
    else if t in table[0] then Some(0)
    else match Row(t, table[1..]) case None => None case Some(i) => Some(i + 1)
  }

  function ReadMonth(t: string): Option<int> {
    match Row(t, MONTHS) case Some(i) => Some(i + 1) case None => None
  }

  function ReadWeekday(t: string): Option<int> {
    match Row(t, WEEKDAYS) case Some(i) => Some(i) case None => None
  }

  function MonthName(v: int): string {
    if 1 <= v <= 12 then MONTHS[v - 1][1] else ""
  }

  function WeekdayName(v: int): string {
    if 0 <= v <= 6 then WEEKDAYS[v][0] else ""
  }

  /** Names in different rows differ in one of their first three letters. */
  lemma MonthNamesDiffer(i: nat, j: nat)
    requires i < j < 12
    ensures MonthName(j + 1) !in MONTHS[i]
  {
    var t := MonthName(j + 1);
    forall k | 0 <= k < |MONTHS[i]| ensures MONTHS[i][k] != t {
      if k == 0 {
        assert |MONTHS[i][k]| < 3;
      } else {
        var u := MONTHS[i][k];
        assert u[0] != t[0] || u[1] != t[1] || u[2] != t[2];
      }
    }
  }

  lemma WeekdayNamesDiffer(i: nat, j: nat)
    requires i < j < 7
    ensures WeekdayName(j) !in WEEKDAYS[i]
  {
    var t := WeekdayName(j);
    forall k | 0 <= k < |WEEKDAYS[i]| ensures WEEKDAYS[i][k] != t {
      var u := WEEKDAYS[i][k];
      assert u[0] != t[0] || u[1] != t[1];
    }
  }

  predicate IsPlain(t: string) {
    t != "" && ',' !in t && '*' !in t && ' ' !in t
  }

  lemma RowIs(t: string, table: seq<seq<string>>, k: nat)
    requires k < |table| && t in table[k] && forall i | 0 <= i < k :: t !in table[i]
    ensures Row(t, table) == Some(k)
  {
    hide Row;
    var r := Row(t, table);
    assert r.Some? && r.value <= k && t in table[r.value];
  }

  lemma MonthReads(v: int)
    requires 1 <= v <= 12
    ensures ReadMonth(MonthName(v)) == Some(v)
  {
    hide Row;
    var t := MonthName(v);
    assert MONTHS[v - 1][1] == t;
    hide MonthName;
    forall i | 0 <= i < v - 1 ensures t !in MONTHS[i] {
      MonthNamesDiffer(i, v - 1);
    }
    RowIs(t, MONTHS, v - 1);
  }

  lemma MonthIsPlain(v: int)
    requires 1 <= v <= 12
    ensures IsPlain(MonthName(v))
  {
    var t := MonthName(v);
    assert |t| == 3 && 'a' <= t[0] <= 'z' && 'a' <= t[1] <= 'z' && 'a' <= t[2] <= 'z';
  }

  lemma WeekdayReads(v: int)
    requires 0 <= v <= 6
    ensures ReadWeekday(WeekdayName(v)) == Some(v)
  {
    hide Row;
    var t := WeekdayName(v);
    assert WEEKDAYS[v][0] == t;
    hide WeekdayName;
    forall i | 0 <= i < v ensures t !in WEEKDAYS[i] {
      WeekdayNamesDiffer(i, v);
    }
    RowIs(t, WEEKDAYS, v);
  }

  lemma WeekdayIsPlain(v: int)
    requires 0 <= v <= 6
    ensures IsPlain(WeekdayName(v))
  {
    var t := WeekdayName(v);
    assert |t| == 3 && 'a' <= t[0] <= 'z' && 'a' <= t[1] <= 'z' && 'a' <= t[2] <= 'z';
  }

  /** Which month every text stands for. */
  lemma MonthSpellings(t: string)
    ensures ReadMonth(t) ==
         if t in ["1", "jan", "january"] then Some(1)
         else if t in ["2", "feb", "february"] then Some(2)
         else if t in ["3", "mar", "march"] then Some(3)
         else if t in ["4", "apr", "april"] then Some(4)
         else if t in ["5", "may"] then Some(5)
         else if t in ["6", "jun", "june"] then Some(6)
         else if t in ["7", "jul", "july"] then Some(7)
         else if t in ["8", "aug", "august"] then Some(8)
         else if t in ["9", "sep", "september"] then Some(9)
         else if t in ["10", "oct", "october"] then Some(10)
         else if t in ["11", "nov", "november"] then Some(11)
         else if t in ["12", "dec", "december"] then Some(12)
         else None
  {
    var r := Row(t, MONTHS);
    hide Row;
    assert forall i | 0 <= i < |MONTHS| && t in MONTHS[i] :: r.Some? && r.value <= i;
    assert r.Some? ==> t in MONTHS[r.value];
    assert MONTHS[0] == ["1", "jan", "january"] && MONTHS[1] == ["2", "feb", "february"];
    assert MONTHS[2] == ["3", "mar", "march"] && MONTHS[3] == ["4", "apr", "april"];
    assert MONTHS[4] == ["5", "may"] && MONTHS[5] == ["6", "jun", "june"];
    assert MONTHS[6] == ["7", "jul", "july"] && MONTHS[7] == ["8", "aug", "august"];
    assert MONTHS[8] == ["9", "sep", "september"] && MONTHS[9] == ["10", "oct", "october"];
    assert MONTHS[10] == ["11", "nov", "november"] && MONTHS[11] == ["12", "dec", "december"];
  }

  /** Which weekday every text stands for. */
  lemma WeekdaySpellings(t: string)
    ensures ReadWeekday(t) ==
         if t in ["sun", "sunday"] then Some(0)
         else if t in ["mon", "monday"] then Some(1)
         else if t in ["tue", "tuesday"] then Some(2)
         else if t in ["wed", "wednesday"] then Some(3)
         else if t in ["thu", "thursday"] then Some(4)
         else if t in ["fri", "friday"] then Some(5)
         else if t in ["sat", "saturday"] then Some(6)
         else None
  {
    var r := Row(t, WEEKDAYS);
    hide Row;
    assert forall i | 0 <= i < |WEEKDAYS| && t in WEEKDAYS[i] :: r.Some? && r.value <= i;
    assert r.Some? ==> t in WEEKDAYS[r.value];
    assert WEEKDAYS[0] == ["sun", "sunday"] && WEEKDAYS[1] == ["mon", "monday"];
    assert WEEKDAYS[2] == ["tue", "tuesday"] && WEEKDAYS[3] == ["wed", "wednesday"];
    assert WEEKDAYS[4] == ["thu", "thursday"] && WEEKDAYS[5] == ["fri", "friday"];
    assert WEEKDAYS[6] == ["sat", "saturday"];
  }

  /** Digits denote a number, and so do digits behind a sign. */
  lemma NumberSpellings(t: string)
    requires t != "" && Numerals.AllDigits(t)
    ensures Atoi(t) == Atoi("+" + t) == Some(Numerals.Read(t))
    ensures Atoi("-" + t) == Some(0 - Numerals.Read(t))
  {
    hide Numerals.Read;
    assert ("+" + t)[1..] == t && ("-" + t)[1..] == t;
    assert Numerals.IsDigit(t[0]);
  }

  /** Nothing else does. */
  lemma OnlyNumbers(t: string)
    ensures Atoi(t).Some? <==> IsNumber(t) || (t != "" && (t[0] == '+' || t[0] == '-') && IsNumber(t[1..]))
  {
    hide Numerals.Read;
    if IsNumber(t) {
      assert Numerals.IsDigit(t[0]);
    }
  }

  predicate IsNumber(t: string) {
    t != "" && Numerals.AllDigits(t)
  }

  lemma MonthNames()
    ensures Names(MonthName, ReadMonth, 1, 12) && ReadsWithin(ReadMonth, 1, 12)
  {
    hide MonthName;
    forall v | 1 <= v <= 12 ensures ReadMonth(MonthName(v)) == Some(v) && IsPlain(MonthName(v)) {
      MonthReads(v);
      MonthIsPlain(v);
    }
  }

  lemma WeekdayNames()
    ensures Names(WeekdayName, ReadWeekday, 0, 6) && ReadsWithin(ReadWeekday, 0, 6)
  {
    hide WeekdayName;
    forall v | 0 <= v <= 6 ensures ReadWeekday(WeekdayName(v)) == Some(v) && IsPlain(WeekdayName(v)) {
      WeekdayReads(v);
      WeekdayIsPlain(v);
    }
  }

  lemma NumberNames(lo: int, hi: int)
    requires 0 <= lo
    ensures Names(NumberName, ReadNumber(lo, hi), lo, hi) && ReadsWithin(ReadNumber(lo, hi), lo, hi)
  {
    forall v | lo <= v <= hi
      ensures ReadNumber(lo, hi)(NumberName(v)) == Some(v)
      ensures NumberName(v) != "" && ',' !in NumberName(v) && '*' !in NumberName(v) && ' ' !in NumberName(v)
    {
      Numerals.ReadRender(v);
      assert forall c | c in Numerals.Render(v) :: Numerals.IsDigit(c);
    }
  }

  // ---------- Whole schedules as text ----------

  const FIELDS := 6

  function Field(s: Spec, i: nat): seq<int>
    requires i < FIELDS
  {
    [s.seconds, s.minutes, s.hours, s.days, s.months, s.weekdays][i]
  }

  function WithField(s: Spec, i: nat, list: seq<int>): Spec
    requires i < FIELDS
  {
    if i == 0 then s.(seconds := list)
    else if i == 1 then s.(minutes := list)
    else if i == 2 then s.(hours := list)
    else if i == 3 then s.(days := list)
    else if i == 4 then s.(months := list)
    else s.(weekdays := list)
  }

  function Lowest(i: nat): int
    requires i < FIELDS
  {
    [0, 0, 0, 1, 1, 0][i]
  }

  function Highest(i: nat): int
    requires i < FIELDS
  {
    [59, 59, 23, 31, 12, 6][i]
  }

  function Suffix(i: nat): string
    requires i < FIELDS
  {
    ["s", "m", "h", "d", "", ""][i]
  }

  function Reader(i: nat): string -> Option<int>
    requires i < FIELDS
  {
    if i < 4 then ReadNumber(Lowest(i), Highest(i)) else if i == 4 then ReadMonth else ReadWeekday
  }

  function Namer(i: nat): int -> string
    requires i < FIELDS
  {
    if i < 4 then NumberName else if i == 4 then MonthName else WeekdayName
  }

  lemma FieldNames(i: nat)
    requires i < FIELDS
    ensures Names(Namer(i), Reader(i), Lowest(i), Highest(i)) && ReadsWithin(Reader(i), Lowest(i), Highest(i))
  {
    NumberNames(Lowest(i), Highest(i));
    MonthNames();
    WeekdayNames();
  }

  function PartText(s: Spec, i: nat): string
    requires i < FIELDS
  {
    FieldText(Field(s, i), Namer(i)) + Suffix(i)
  }

  function Parts(s: Spec): (parts: seq<string>)
    ensures |parts| == FIELDS && forall i | 0 <= i < FIELDS :: parts[i] == PartText(s, i)
  {
    seq(FIELDS, i requires 0 <= i < FIELDS => PartText(s, i))
  }

  /** The six fields, separated by spaces. */
  function SpecText(s: Spec): string {
    Join(Parts(s), ' ')
  }

  /** The units behind the fields, and the order of the fields. */
  lemma SpecTextIs(s: Spec)
    ensures SpecText(s) ==
            (FieldText(s.seconds, NumberName) + "s") + " " + (FieldText(s.minutes, NumberName) + "m") + " "
            + (FieldText(s.hours, NumberName) + "h") + " " + (FieldText(s.days, NumberName) + "d") + " "
            + FieldText(s.months, MonthName) + " " + FieldText(s.weekdays, WeekdayName)
  {
    hide FieldText, MonthName, WeekdayName, NumberName, Join;
    var a, b, c := PartText(s, 0), PartText(s, 1), PartText(s, 2);
    var d, e, f := PartText(s, 3), PartText(s, 4), PartText(s, 5);
    assert Parts(s) == [a, b, c, d, e, f];
    JoinSix(a, b, c, d, e, f);
    assert e == FieldText(s.months, MonthName) && f == FieldText(s.weekdays, WeekdayName);
  }

  lemma JoinSix(a: string, b: string, c: string, d: string, e: string, f: string)
    ensures Join([a, b, c, d, e, f], ' ') == a + " " + b + " " + c + " " + d + " " + e + " " + f
  {
    JoinAppend([a], b, ' ');
    JoinAppend([a, b], c, ' ');
    JoinAppend([a, b, c], d, ' ');
    JoinAppend([a, b, c, d], e, ' ');
    JoinAppend([a, b, c, d, e], f, ' ');
    assert [a] + [b] == [a, b] && [a, b] + [c] == [a, b, c] && [a, b, c] + [d] == [a, b, c, d];
    assert [a, b, c, d] + [e] == [a, b, c, d, e] && [a, b, c, d, e] + [f] == [a, b, c, d, e, f];
  }

  /** Assign the fields one part after another; a part that cannot be read empties its field and stops. */
  function ParseParts(s: Spec, parts: seq<string>, i: nat): (bool, Spec)
    requires i <= |parts| <= FIELDS
    decreases |parts| - i
  {
    if i == |parts| then (true, s)
    else
      match ParsePart(parts[i], Suffix(i), Reader(i))
      case None => (false, WithField(s, i, []))
      case Some(list) => ParseParts(WithField(s, i, list), parts, i + 1)
  }

  function NormalizeAll(s: Spec): Spec {
    Spec(Normalize(s.seconds, 60), Normalize(s.minutes, 60), Normalize(s.hours, 24),
         Normalize(s.days, 31), Normalize(s.months, 12), Normalize(s.weekdays, 7))
  }

  /** Whether `text` is a schedule, and the fields after parsing it over the fields `s`. */
  function ParseSpec(s: Spec, text: string): (bool, Spec) {
    var parts := Split(text, ' ');
    if text == "" || |parts| > FIELDS then (false, s)
    else
      var (ok, t) := ParseParts(s, parts, 0);
      (ok, if ok then NormalizeAll(t) else t)
  }

  lemma WithFieldReads(s: Spec, i: nat, list: seq<int>)
    requires i < FIELDS
    ensures forall j: nat | j < FIELDS :: Field(WithField(s, i, list), j) == if j == i then list else Field(s, j)
  {
  }

  lemma {:induction false} ParsePartsFields(s: Spec, parts: seq<string>, i: nat)
    requires i <= |parts| <= FIELDS
    ensures ParseParts(s, parts, i).0 <==>
              forall j | i <= j < |parts| :: ParsePart(parts[j], Suffix(j), Reader(j)).Some?
    ensures ParseParts(s, parts, i).0 ==>
              forall j: nat | j < FIELDS ::
                Field(ParseParts(s, parts, i).1, j) ==
                if i <= j < |parts| then ParsePart(parts[j], Suffix(j), Reader(j)).value else Field(s, j)
    decreases |parts| - i
  {
    hide Field, WithField, ParsePart, Reader, Suffix;
    if i < |parts| {
      match ParsePart(parts[i], Suffix(i), Reader(i))
      case None =>
      case Some(list) =>
        WithFieldReads(s, i, list);
        ParsePartsFields(WithField(s, i, list), parts, i + 1);
    }
  }

  /** A part of the text that can be read for its field. */
  predicate PartIsValid(part: string, i: nat)
    requires i < FIELDS
  {
    var body := TrimSuffix(part, Suffix(i));
    body == "*" || forall v | v in Split(body, ',') :: Reader(i)(v).Some?
  }

  /** A text is a schedule exactly when it has one to six parts that can be read for their fields. */
  lemma AcceptedSpec(before: Spec, text: string)
    ensures
      var parts := Split(text, ' ');
      ParseSpec(before, text).0 <==>
      text != "" && |parts| <= 6 && forall i | 0 <= i < |parts| :: PartIsValid(parts[i], i)
  {
    var parts := Split(text, ' ');
    hide ParsePart, Reader, Suffix, Split, NormalizeAll;
    if |parts| <= FIELDS {
      ParsePartsFields(before, parts, 0);
      forall i | 0 <= i < |parts|
        ensures ParsePart(parts[i], Suffix(i), Reader(i)).Some? <==> PartIsValid(parts[i], i)
      {
        AcceptedPart(parts[i], Suffix(i), Reader(i));
      }
    }
  }

  /** Fields before the first bad part are set, the field of that part is emptied, and the others stay. */
  lemma {:induction false} RejectedParts(s: Spec, parts: seq<string>, i: nat) returns (bad: nat)
    requires i <= |parts| <= FIELDS && !ParseParts(s, parts, i).0
    ensures i <= bad < |parts| && ParsePart(parts[bad], Suffix(bad), Reader(bad)).None?
    ensures forall j | i <= j < bad :: ParsePart(parts[j], Suffix(j), Reader(j)).Some?
    ensures forall j: nat | j < FIELDS ::
              Field(ParseParts(s, parts, i).1, j) ==
              if i <= j < bad then ParsePart(parts[j], Suffix(j), Reader(j)).value
              else if j == bad then []
              else Field(s, j)
    decreases |parts| - i
  {
    hide Field, WithField, ParsePart, Reader, Suffix;
    var list := ParsePart(parts[i], Suffix(i), Reader(i));
    if list.None? {
      bad := i;
      WithFieldReads(s, i, []);
    } else {
      WithFieldReads(s, i, list.value);
      bad := RejectedParts(WithField(s, i, list.value), parts, i + 1);
    }
  }

  lemma NormalizeFields(s: Spec, j: nat)
    requires j < FIELDS
    ensures Field(NormalizeAll(s), j) == Normalize(Field(s, j), Highest(j) - Lowest(j) + 1)
  {
  }

  lemma NormalFormFields(s: Spec)
    ensures NormalForm(s) <==> forall j: nat | j < FIELDS :: IsField(Field(s, j), Lowest(j), Highest(j))
  {
    if forall j: nat | j < FIELDS :: IsField(Field(s, j), Lowest(j), Highest(j)) {
      assert IsField(Field(s, 0), Lowest(0), Highest(0));
      assert IsField(Field(s, 1), Lowest(1), Highest(1));
      assert IsField(Field(s, 2), Lowest(2), Highest(2));
      assert IsField(Field(s, 3), Lowest(3), Highest(3));
      assert IsField(Field(s, 4), Lowest(4), Highest(4));
      assert IsField(Field(s, 5), Lowest(5), Highest(5));
    }
  }

  /** Parsing the text of a normal-form schedule gives that schedule back, whatever the fields were before. */
  lemma TextRoundTrip(s: Spec, before: Spec)
    requires NormalForm(s)
    ensures ParseSpec(before, SpecText(s)) == (true, s)
  {
    hide Field, ParsePart, FieldText, Normalize, IsField, NormalForm, Reader, Namer, Suffix, NormalizeAll, Split, Join;
    var parts := Parts(s);
    NormalFormFields(s);
    forall i: nat | i < FIELDS
      ensures ParsePart(parts[i], Suffix(i), Reader(i)) == Some(Field(s, i)) && ' ' !in parts[i]
      ensures Normalize(Field(s, i), Highest(i) - Lowest(i) + 1) == Field(s, i)
    {
      FieldNames(i);
      SuffixIsPlain(i);
      FieldRoundTrip(Field(s, i), Namer(i), Reader(i), Suffix(i), Lowest(i), Highest(i));
    }
    SplitJoin(parts, ' ');
    JoinNotEmpty(parts);
    ParsePartsFields(before, parts, 0);
    var t := ParseParts(before, parts, 0).1;
    SameFields(t, s);
    forall i: nat | i < FIELDS ensures Field(NormalizeAll(s), i) == Field(s, i) {
      NormalizeFields(s, i);
    }
    SameFields(NormalizeAll(s), s);
  }

  lemma SuffixIsPlain(i: nat)
    requires i < FIELDS
    ensures ' ' !in Suffix(i)
  {
  }

  lemma JoinNotEmpty(parts: seq<string>)
    requires |parts| > 1
    ensures Join(parts, ' ') != ""
  {
  }

  lemma SameFields(s: Spec, t: Spec)
    requires forall i: nat | i < FIELDS :: Field(s, i) == Field(t, i)
    ensures s == t
  {
    assert Field(s, 0) == Field(t, 0) && Field(s, 1) == Field(t, 1) && Field(s, 2) == Field(t, 2);
    assert Field(s, 3) == Field(t, 3) && Field(s, 4) == Field(t, 4) && Field(s, 5) == Field(t, 5);
  }

  /** The value of an instant in field `i`. */
  function ValueOf(t: Time, i: nat): (v: int)
    requires i < FIELDS
    ensures Lowest(i) <= v <= Highest(i)
  {
    Reading(t);
    [Second(t), Minute(t), Hour(t), DayOfMonth(DayOf(t)), MonthNumber(DayOf(t)), Weekday(DayOf(t))][i]
  }

  /** A part of the text admits a value when it is an asterisk or lists the value. */
  ghost predicate PartAdmits(part: string, i: nat, v: int)
    requires i < FIELDS
  {
    var body := TrimSuffix(part, Suffix(i));
    body == "*" || IsWritten(Split(body, ','), Reader(i), v)
  }

  /** What the text says about field `i`; a field that is not written keeps what it admitted before. */
  ghost predicate TextAdmits(before: Spec, parts: seq<string>, i: nat, v: int)
    requires i < FIELDS
  {
    if i < |parts| then PartAdmits(parts[i], i, v) else Admits(Field(before, i), v)
  }

  lemma ParsedFieldAdmits(before: Spec, text: string, i: nat)
    requires NormalForm(before) && ParseSpec(before, text).0 && i < FIELDS
    ensures
      var list := Field(ParseSpec(before, text).1, i);
      && IsField(list, Lowest(i), Highest(i))
      && forall v | Lowest(i) <= v <= Highest(i) :: Admits(list, v) <==> TextAdmits(before, Split(text, ' '), i, v)
  {
    hide Field, NormalizeAll, ParsePart, Admits, IsField, Reader, Suffix, Normalize;
    var parts := Split(text, ' ');
    ParsePartsFields(before, parts, 0);
    NormalizeFields(ParseParts(before, parts, 0).1, i);
    FieldNames(i);
    if i < |parts| {
      ParsedField(parts[i], Suffix(i), Reader(i), Lowest(i), Highest(i));
      AdmitsEvery(Field(ParseSpec(before, text).1, i));
    } else {
      NormalFormFields(before);
      KeepsField(Field(before, i), Lowest(i), Highest(i));
    }
  }

  lemma AdmitsEvery(list: seq<int>)
    ensures list == [] ==> forall v :: Admits(list, v)
  {
  }

  lemma KeepsField(list: seq<int>, lo: int, hi: int)
    requires IsField(list, lo, hi)
    ensures Normalize(list, hi - lo + 1) == list || hi < lo
  {
  }

  /** A successful parse leaves the fields in normal form, and they match exactly the instants that the text admits. */
  lemma ParsedMatches(before: Spec, text: string)
    requires NormalForm(before) && ParseSpec(before, text).0
    ensures NormalForm(ParseSpec(before, text).1)
    ensures forall t ::
              Matches(ParseSpec(before, text).1, t) <==>
              forall i: nat | i < FIELDS :: TextAdmits(before, Split(text, ' '), i, ValueOf(t, i))
  {
    hide Field, TextAdmits, Matches, ValueOf, NormalForm, ParseSpec, Admits;
    var s := ParseSpec(before, text).1;
    NormalFormFields(s);
    forall i: nat | i < FIELDS
      ensures IsField(Field(s, i), Lowest(i), Highest(i))
      ensures forall t :: Admits(Field(s, i), ValueOf(t, i)) <==> TextAdmits(before, Split(text, ' '), i, ValueOf(t, i))
    {
      ParsedFieldAdmits(before, text, i);
    }
    forall t
      ensures Matches(s, t) <==> forall i: nat | i < FIELDS :: TextAdmits(before, Split(text, ' '), i, ValueOf(t, i))
    {
      MatchesFields(s, t);
    }
  }

  lemma MatchesFields(s: Spec, t: Time)
    ensures Matches(s, t) <==> forall i: nat | i < FIELDS :: Admits(Field(s, i), ValueOf(t, i))
  {
    if forall i: nat | i < FIELDS :: Admits(Field(s, i), ValueOf(t, i)) {
      assert Admits(Field(s, 0), ValueOf(t, 0)) && Admits(Field(s, 1), ValueOf(t, 1));
      assert Admits(Field(s, 2), ValueOf(t, 2)) && Admits(Field(s, 3), ValueOf(t, 3));
      assert Admits(Field(s, 4), ValueOf(t, 4)) && Admits(Field(s, 5), ValueOf(t, 5));
    }
  }
}
