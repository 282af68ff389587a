/** The task form's validation schema and the normalisation applied to a
    validated form before it reaches the store. */
module TaskSchema {
  import opened Wrappers
  import opened Tasks
  import Text
  import Calendar

  /** The form as submitted: every field a string, the optional ones possibly
      `undefined`. */
  datatype TaskForm = TaskForm(
    title: string,
    description: Option<string>,
    status: string,
    priority: string,
    dueDate: Option<string>,
    assignee: Option<string>)

  /** What the schema yields for an accepted form (`TaskFormData`). */
  datatype FormData = FormData(
    title: string,
    description: Option<string>,
    status: Status,
    priority: Priority,
    dueDate: Option<string>,
    assignee: Option<string>)

  /* ---- the enumerations ---- */

  function StatusName(st: Status): string {
    match st
    case Todo => "TODO"
    case InProgress => "IN_PROGRESS"
    case Done => "DONE"
  }

  /** `z.enum(['TODO', 'IN_PROGRESS', 'DONE'])`. */
  function ParseStatus(s: string): (r: Option<Status>)
    ensures r.Some? <==> s == "TODO" || s == "IN_PROGRESS" || s == "DONE"
    ensures r.Some? ==> StatusName(r.value) == s
  {
    if s == "TODO" then Some(Todo)
    else if s == "IN_PROGRESS" then Some(InProgress)
    else if s == "DONE" then Some(Done)
    else None
  }

  lemma StatusNameParses(st: Status)
    ensures ParseStatus(StatusName(st)) == Some(st)
  {
  }

  function PriorityName(p: Priority): string {
    match p
    case Low => "LOW"
    case Medium => "MEDIUM"
    case High => "HIGH"
  }

  /** `z.enum(['LOW', 'MEDIUM', 'HIGH'])`. */
  function ParsePriority(s: string): (r: Option<Priority>)
    ensures r.Some? <==> s == "LOW" || s == "MEDIUM" || s == "HIGH"
    ensures r.Some? ==> PriorityName(r.value) == s
  {
    if s == "LOW" then Some(Low)
    else if s == "MEDIUM" then Some(Medium)
    else if s == "HIGH" then Some(High)
    else None
  }

  lemma PriorityNameParses(p: Priority)
    ensures ParsePriority(PriorityName(p)) == Some(p)
  {
  }

  /* ---- the due date ---- */

  /** `isValidDate`: an absent or empty date passes; otherwise the string must
      denote a date and have the `YYYY-MM-DD` shape. */
  predicate IsValidDate(d: Option<string>) {
    d.None? || d.value == ""
    || (Calendar.ParseIsoDate(d.value).Some? && Calendar.MatchesDateShape(d.value))
  }

  /** A due date is valid exactly when it is absent, empty, or the
      `YYYY-MM-DD` spelling of a year 0000-9999, a month 01-12 and a day
      01-31. */
  lemma ValidDateSpellings(d: Option<string>)
    ensures IsValidDate(d) <==>
      d.None? || d.value == "" ||
      exists x: Calendar.CalendarDate ::
        0 <= x.year <= 9999 && 1 <= x.month <= 12 && 1 <= x.day <= 31
        && Calendar.FormatIsoDate(x) == d.value
  {
    if d.Some? && d.value != "" {
      var v := d.value;
      if IsValidDate(d) {
        Calendar.FormatParse(v);
        var x := Calendar.ParseIsoDate(v).value;
        assert Calendar.FormatIsoDate(x) == v;
      }
      if exists x: Calendar.CalendarDate ::
          0 <= x.year <= 9999 && 1 <= x.month <= 12 && 1 <= x.day <= 31
          && Calendar.FormatIsoDate(x) == v {
        var x: Calendar.CalendarDate :| 0 <= x.year <= 9999 && 1 <= x.month <= 12 && 1 <= x.day <= 31
          && Calendar.FormatIsoDate(x) == v;
        Calendar.ParseFormat(x);
      }
    }
  }

  /** `isFutureDate`: an absent or empty date passes; otherwise the date must
      not lie before `today` (the caller's local date at midnight). A string
      that is not a date compares as NaN and fails. */
  predicate IsFutureDate(d: Option<string>, today: Calendar.CalendarDate) {
    d.None? || d.value == ""
    || match Calendar.ParseIsoDate(d.value)
       case None => false
       case Some(x) => Calendar.DayNumber(x) >= Calendar.DayNumber(today)
  }

  /** An absent or empty due date passes the past-date check, a string that
      is not a date fails it, and a due date naming a real day passes exactly
      when that day is `today` or later in the calendar. */
  lemma FutureDateMeaning(d: Option<string>, today: Calendar.CalendarDate)
    requires Calendar.IsRealDate(today)
    ensures d.None? || d.value == "" ==> IsFutureDate(d, today)
    ensures d.Some? && d.value != "" && Calendar.ParseIsoDate(d.value).None? ==> !IsFutureDate(d, today)
    ensures d.Some? && d.value != "" && Calendar.ParseIsoDate(d.value).Some?
            && Calendar.IsRealDate(Calendar.ParseIsoDate(d.value).value) ==>
              (IsFutureDate(d, today) <==> !Calendar.Precedes(Calendar.ParseIsoDate(d.value).value, today))
  {
    if d.Some? && d.value != "" && Calendar.ParseIsoDate(d.value).Some?
       && Calendar.IsRealDate(Calendar.ParseIsoDate(d.value).value) {
      Calendar.DayNumberOrder(Calendar.ParseIsoDate(d.value).value, today);
    }
  }

  /* ---- the other fields ---- */

  /** The title rules as declared: `min(1)`, `min(3)` and `max(100)` on the
      string as entered; the declared `.trim()` runs only after them. The
      `min(1)` check is subsumed by `min(3)`. */
  predicate TitleRulesAsWritten(title: string) {
    |title| >= 1 && |title| >= 3 && |title| <= 100
  }

  /** The title rules applied to the trimmed title (see README, Findings). */
  predicate TitleRules(title: string) {
    var t := Text.Trim(title);
    |t| >= 1 && |t| >= 3 && |t| <= 100
  }

  /** `max(500)`, optional, or the literal `''`. */
  predicate DescriptionRules(d: Option<string>) {
    d.None? || |d.value| <= 500 || d.value == ""
  }

  /** The characters of `/^[a-zA-Z\s\-']+$/`. */
  predicate AssigneeChar(c: char) {
    ('a' <= c <= 'z') || ('A' <= c <= 'Z') || Text.IsSpace(c) || c == '-' || c == '\''
  }

  /** `max(50)`, optional, or `''`; then, for a non-empty name, the pattern. */
  predicate AssigneeRules(a: Option<string>) {
    && (a.None? || |a.value| <= 50)
    && (a.None? || a.value == "" || forall i :: 0 <= i < |a.value| ==> AssigneeChar(a.value[i]))
  }

  /** Every rule of the schema except the title's. */
  predicate OtherFieldRules(form: TaskForm, today: Calendar.CalendarDate) {
    && DescriptionRules(form.description)
    && ParseStatus(form.status).Some?
    && ParsePriority(form.priority).Some?
    && IsValidDate(form.dueDate)
    && IsFutureDate(form.dueDate, today)
    && AssigneeRules(form.assignee)
  }

  /** The schema's output for an accepted form: the title trimmed, the
      enumerations typed, everything else as entered. */
  function Accepted(form: TaskForm): FormData
    requires ParseStatus(form.status).Some? && ParsePriority(form.priority).Some?
  {
    FormData(Text.Trim(form.title), form.description, ParseStatus(form.status).value,
             ParsePriority(form.priority).value, form.dueDate, form.assignee)
  }

  /** `taskSchema.safeParse` as written: the form data when every rule holds,
      nothing otherwise. */
  function ParseAsWritten(form: TaskForm, today: Calendar.CalendarDate): (r: Option<FormData>)
    ensures r.Some? <==> TitleRulesAsWritten(form.title) && OtherFieldRules(form, today)
    ensures r.Some? ==> r.value.title == Text.Trim(form.title) && PriorityName(r.value.priority) == form.priority
                        && StatusName(r.value.status) == form.status
    ensures r.Some? ==> r.value.description == form.description && r.value.dueDate == form.dueDate
                        && r.value.assignee == form.assignee
  {
    if TitleRulesAsWritten(form.title) && OtherFieldRules(form, today) then Some(Accepted(form)) else None
  }

  /** The schema with its title rules applied after trimming. */
  function Parse(form: TaskForm, today: Calendar.CalendarDate): (r: Option<FormData>)
    ensures r.Some? <==> TitleRules(form.title) && OtherFieldRules(form, today)
    ensures r.Some? ==> r.value.title == Text.Trim(form.title) && PriorityName(r.value.priority) == form.priority
                        && StatusName(r.value.status) == form.status
    ensures r.Some? ==> r.value.description == form.description && r.value.dueDate == form.dueDate
                        && r.value.assignee == form.assignee
  {
    if TitleRules(form.title) && OtherFieldRules(form, today) then Some(Accepted(form)) else None
  }

  /* ---- normalisation ---- */

  /** `value?.trim() || undefined`: blank or absent becomes absent. */
  function TrimToOption(v: Option<string>): (r: Option<string>)
    ensures r.Some? <==> v.Some? && !Text.IsBlank(v.value)
    ensures r.Some? ==> r.value == Text.Trim(v.value) && r.value != ""
  {
    if v.None? || Text.Trim(v.value) == "" then None else Some(Text.Trim(v.value))
  }

  /** `transformTaskData`: the store input built from accepted form data. */
  function TransformTaskData(d: FormData): (r: TaskInput)
    ensures r.title == Text.Trim(d.title)
    ensures r.status == d.status && r.priority == d.priority
    ensures r.description.Some? <==> d.description.Some? && !Text.IsBlank(d.description.value)
    ensures r.assignee.Some? <==> d.assignee.Some? && !Text.IsBlank(d.assignee.value)
    ensures r.dueDate.Some? <==> d.dueDate.Some? && d.dueDate.value != ""
    ensures r.description.Some? ==> r.description.value == Text.Trim(d.description.value)
    ensures r.assignee.Some? ==> r.assignee.value == Text.Trim(d.assignee.value)
    ensures r.dueDate.Some? ==> r.dueDate == d.dueDate
    ensures NoEmptyOptional(r)
  {
    TaskInput(
      Text.Trim(d.title),
      TrimToOption(d.description),
      d.status,
      d.priority,
      if d.dueDate.None? || d.dueDate.value == "" then None else d.dueDate,
      TrimToOption(d.assignee))
  }

  /** No optional field is present but empty. */
  predicate NoEmptyOptional(t: TaskInput) {
    && (t.description.None? || t.description.value != "")
    && (t.dueDate.None? || t.dueDate.value != "")
    && (t.assignee.None? || t.assignee.value != "")
  }

  /** A string with no white space at either end. */
  predicate Unpadded(s: string) {
    s == [] || (!Text.IsSpace(s[0]) && !Text.IsSpace(s[|s| - 1]))
  }

  predicate TitleWellFormed(title: string) {
    3 <= |title| <= 100 && Unpadded(title)
  }

  predicate DescriptionWellFormed(d: Option<string>) {
    d.None? || (d.value != "" && Unpadded(d.value) && |d.value| <= 500)
  }

  predicate DueDateWellFormed(d: Option<string>, today: Calendar.CalendarDate) {
    d.None?
    || (Calendar.ParseIsoDate(d.value).Some?
        && Calendar.DayNumber(Calendar.ParseIsoDate(d.value).value) >= Calendar.DayNumber(today))
  }

  predicate AssigneeWellFormed(a: Option<string>) {
    a.None?
    || (a.value != "" && Unpadded(a.value) && |a.value| <= 50
        && forall i :: 0 <= i < |a.value| ==> AssigneeChar(a.value[i]))
  }

  /** What a task built from the form looks like, stated without reference to
      the schema: a trimmed title of 3 to 100 characters; a trimmed non-empty
      description of at most 500; a `YYYY-MM-DD` due date no earlier than
      `today`; a trimmed non-empty assignee of at most 50 allowed characters. */
  predicate WellFormedInput(t: TaskInput, today: Calendar.CalendarDate) {
    && TitleWellFormed(t.title)
    && DescriptionWellFormed(t.description)
    && DueDateWellFormed(t.dueDate, today)
    && AssigneeWellFormed(t.assignee)
  }

  lemma TitleNormalised(title: string)
    requires TitleRules(title)
    ensures TitleWellFormed(Text.Trim(title))
  {
  }

  lemma DescriptionNormalised(d: Option<string>)
    requires DescriptionRules(d)
    ensures DescriptionWellFormed(TrimToOption(d))
  {
  }

  lemma DueDateNormalised(d: Option<string>, today: Calendar.CalendarDate)
    requires IsValidDate(d) && IsFutureDate(d, today)
    ensures DueDateWellFormed(if d.None? || d.value == "" then None else d, today)
  {
  }

  lemma AssigneeNormalised(a: Option<string>)
    requires AssigneeRules(a)
    ensures AssigneeWellFormed(TrimToOption(a))
  {
    var r := TrimToOption(a);
    if r.Some? {
      forall i | 0 <= i < |r.value| ensures AssigneeChar(r.value[i]) {
        assert r.value[i] in a.value;
      }
    }
  }

  /** Validation by the schema as written followed by normalisation yields a
      task input whose fields are all well formed except possibly the title's
      minimum length: the title is trimmed and at most 100 characters, and it
      reaches three characters exactly when the trimmed form title does. */
  lemma AsWrittenAcceptedForms(form: TaskForm, today: Calendar.CalendarDate)
    requires ParseAsWritten(form, today).Some?
    ensures var t := TransformTaskData(ParseAsWritten(form, today).value);
      && |t.title| <= 100 && Unpadded(t.title)
      && DescriptionWellFormed(t.description)
      && DueDateWellFormed(t.dueDate, today)
      && AssigneeWellFormed(t.assignee)
    ensures WellFormedInput(TransformTaskData(ParseAsWritten(form, today).value), today)
            <==> |Text.Trim(form.title)| >= 3
  {
    var d := ParseAsWritten(form, today).value;
    var t := TransformTaskData(d);
    assert t.title == Text.Trim(Text.Trim(form.title));
    TrimmedUnpadded(form.title);
    TrimmedUnpadded(Text.Trim(form.title));
    TrimTwiceLength(form.title);
    DescriptionNormalised(form.description);
    DueDateNormalised(form.dueDate, today);
    AssigneeNormalised(form.assignee);
    assert TitleWellFormed(t.title) <==> |t.title| >= 3;
  }

  /** A trimmed string is unpadded and no longer than the original. */
  lemma TrimmedUnpadded(s: string)
    ensures Unpadded(Text.Trim(s)) && |Text.Trim(s)| <= |s|
  {
  }

  /** Trimming again does not shorten a trimmed string. */
  lemma TrimTwiceLength(s: string)
    ensures |Text.Trim(Text.Trim(s))| == |Text.Trim(s)|
  {
    Text.TrimIdempotent(s);
  }

  /** Validation by the corrected schema followed by normalisation always
      yields a well-formed task input. */
  lemma AcceptedFormsAreWellFormed(form: TaskForm, today: Calendar.CalendarDate)
    requires Parse(form, today).Some?
    ensures WellFormedInput(TransformTaskData(Parse(form, today).value), today)
  {
    var d := Parse(form, today).value;
    TitleNormalised(form.title);
    DescriptionNormalised(form.description);
    DueDateNormalised(form.dueDate, today);
    AssigneeNormalised(form.assignee);
  }

  /** The edit dialog's form for a task: each absent optional field shown as
      the empty string. */
  function FormOf(t: TaskInput): TaskForm {
    TaskForm(t.title, Some(t.description.GetOr("")), StatusName(t.status), PriorityName(t.priority),
             Some(t.dueDate.GetOr("")), Some(t.assignee.GetOr("")))
  }

  /** Showing an optional field in the dialog and normalising it again gives
      the field back, when it was trimmed and non-empty (or absent). */
  lemma ShownFieldRoundTrip(v: Option<string>)
    requires v.None? || (v.value != "" && Unpadded(v.value))
    ensures TrimToOption(Some(v.GetOr(""))) == v
  {
    if v.Some? {
      Text.TrimUnpadded(v.value);
    } else {
      assert Text.IsBlank("");
    }
  }

  /** The edit dialog's form for a well-formed task passes every rule. */
  lemma EditFormAccepted(t: TaskInput, today: Calendar.CalendarDate)
    requires WellFormedInput(t, today)
    ensures TitleRulesAsWritten(FormOf(t).title)
    ensures TitleRules(FormOf(t).title)
    ensures DescriptionRules(FormOf(t).description)
    ensures ParseStatus(FormOf(t).status).Some?
    ensures ParsePriority(FormOf(t).priority).Some?
    ensures IsValidDate(FormOf(t).dueDate)
    ensures IsFutureDate(FormOf(t).dueDate, today)
    ensures AssigneeRules(FormOf(t).assignee)
  {
    ShownTitleAccepted(t.title);
    ShownDescriptionAccepted(t.description);
    StatusNameParses(t.status);
    PriorityNameParses(t.priority);
    ShownDueDateAccepted(t.dueDate, today);
    ShownAssigneeAccepted(t.assignee);
  }

  lemma ShownTitleAccepted(title: string)
    requires TitleWellFormed(title)
    ensures TitleRules(title)
  {
    Text.TrimUnpadded(title);
  }

  lemma ShownDescriptionAccepted(d: Option<string>)
    requires DescriptionWellFormed(d)
    ensures DescriptionRules(Some(d.GetOr("")))
  {
  }

  lemma ShownDueDateAccepted(d: Option<string>, today: Calendar.CalendarDate)
    requires DueDateWellFormed(d, today)
    ensures IsValidDate(Some(d.GetOr(""))) && IsFutureDate(Some(d.GetOr("")), today)
  {
  }

  lemma ShownAssigneeAccepted(a: Option<string>)
    requires AssigneeWellFormed(a)
    ensures AssigneeRules(Some(a.GetOr("")))
  {
  }

  /** Opening a well-formed task in the edit dialog and saving it unchanged
      passes validation, under the schema as written and under the corrected
      one, and reproduces the task's fields exactly. */
  lemma EditRoundTrip(t: TaskInput, today: Calendar.CalendarDate)
    requires WellFormedInput(t, today)
    ensures ParseAsWritten(FormOf(t), today).Some?
    ensures TransformTaskData(ParseAsWritten(FormOf(t), today).value) == t
    ensures Parse(FormOf(t), today).Some?
    ensures TransformTaskData(Parse(FormOf(t), today).value) == t
  {
    var form := FormOf(t);
    EditFormAccepted(t, today);
    StatusNameParses(t.status);
    PriorityNameParses(t.priority);
    Text.TrimUnpadded(t.title);
    var d := Parse(form, today).value;
    assert d == FormData(t.title, form.description, t.status, t.priority, form.dueDate, form.assignee);
    ShownFieldRoundTrip(t.description);
    ShownFieldRoundTrip(t.assignee);
  }

  /** The schema as written accepts a title of three spaces, and the store
      then receives an empty title. */
  lemma BlankTitleAcceptedAsWritten(today: Calendar.CalendarDate)
    ensures var form := TaskForm("   ", None, "TODO", "MEDIUM", None, None);
      && ParseAsWritten(form, today).Some?
      && TransformTaskData(ParseAsWritten(form, today).value).title == ""
      && Parse(form, today).None?
  {
    assert Text.IsBlank("   ");
  }

  /** With the title rules applied after trimming, the store never receives
      a title shorter than three characters. */
  lemma TrimmedTitleRulesKeepTitles(form: TaskForm, today: Calendar.CalendarDate)
    requires Parse(form, today).Some?
    ensures 3 <= |TransformTaskData(Parse(form, today).value).title| <= 100
  {
    Text.TrimIdempotent(form.title);
  }
}
