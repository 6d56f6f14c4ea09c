/**
 * The validation and entry construction of `handleSubmit` in
 * `src/SkillForm.jsx`, and the form's `reset`. The clock (`Date.now()`,
 * `new Date()`) is an input, and `Number(hours)` is a parameter that yields
 * `None` for NaN.
 */
module SkillForm {
  import opened Wrappers
  import opened Entries
  import opened Text
  import Storage

  /** The options of the category select. */
  const CategoryChoices: seq<string> := ["Programming", "Design", "Languages", "Personal", "Other"]

  const SkillError := "Please enter a skill name."
  const HoursError := "Enter a valid number of hours (> 0)."

  /** The form's state: the raw text of each field and the error shown. */
  datatype Form = Form(skill: string, category: string, hours: string, notes: string, error: string)

  /** The initial state, which `reset` restores. */
  const Blank := Form("", CategoryChoices[0], "", "", "")

  /** What `handleSubmit` reads from the clock: the id (`Date.now()` as
      text), the ISO date and the ISO timestamp. */
  datatype Clock = Clock(id: string, date: string, timestamp: string)

  /** The new form state and the entry handed to `onAdd`, if any. */
  datatype Submission = Submission(form: Form, added: Option<Entry>)

  /** The hours field holds a positive number: it is not empty, `Number`
      does not give NaN, and the value is above zero. */
  predicate HoursAccepted(hours: string, number: string -> Option<real>) {
    hours != "" && number(hours).Some? && number(hours).value > 0.0
  }

  /** `handleSubmit`: the skill check runs first, so an empty skill is the
      error reported even when the hours are bad too; a rejection only sets
      the error and keeps what was typed; an accepted submission hands over
      the entry built from the trimmed fields and resets the form. */
  function Submit(f: Form, now: Clock, number: string -> Option<real>): (r: Submission)
    ensures r.added.Some? <==> Trim(f.skill) != "" && HoursAccepted(f.hours, number)
    ensures Trim(f.skill) == "" ==> r.form == f.(error := SkillError)
    ensures Trim(f.skill) != "" && !HoursAccepted(f.hours, number) ==> r.form == f.(error := HoursError)
    ensures r.added.Some? ==> r.form == Blank
    ensures r.added.Some? ==>
      && r.added.value.id == now.id
      && r.added.value.date == now.date
      && r.added.value.timestamp == now.timestamp
      && r.added.value.category == f.category
      && r.added.value.skill == Trim(f.skill)
      && r.added.value.notes == Trim(f.notes)
      && Some(r.added.value.hours) == number(f.hours)
  {
    var skill := Trim(f.skill);
    if skill == "" then Submission(f.(error := SkillError), None)
    else if f.hours == "" || number(f.hours).None? || number(f.hours).value <= 0.0 then
      Submission(f.(error := HoursError), None)
    else
      var e := Entry(now.id, now.date, skill, f.category, number(f.hours).value, Trim(f.notes), now.timestamp);
      Submission(Blank, Some(e))
  }

  /** An entry the store is allowed to receive: a non-empty skill with no
      surrounding white space, positive hours, and trimmed notes. */
  ghost predicate ValidEntry(e: Entry) {
    e.skill != "" && Trimmed(e.skill) && e.hours > 0.0 && Trimmed(e.notes)
  }

  /** Every accepted entry is valid, and trimming it again changes nothing. */
  lemma AcceptedEntryIsValid(f: Form, now: Clock, number: string -> Option<real>)
    requires Submit(f, now, number).added.Some?
    ensures ValidEntry(Submit(f, now, number).added.value)
    ensures Trim(Submit(f, now, number).added.value.skill) == Submit(f, now, number).added.value.skill
    ensures Trim(Submit(f, now, number).added.value.notes) == Submit(f, now, number).added.value.notes
  {
    TrimIdempotent(f.skill);
    TrimIdempotent(f.notes);
  }

  /** The reset form is rejected on its skill, so a second press of "Add
      Log" right after a successful one adds nothing. */
  lemma BlankFormRejected(now: Clock, number: string -> Option<real>)
    ensures Submit(Blank, now, number) == Submission(Blank.(error := SkillError), None)
  {
    assert Trim("") == "";
  }

  /** The accepted entry, once added to the store, is in that day's list. */
  lemma SubmittedEntryShowsToday(s: Storage.Store, f: Form, now: Clock, number: string -> Option<real>, c: Storage.Codec)
    requires Submit(f, now, number).added.Some?
    requires Storage.RoundTrips(c, Storage.LoadLogs(s, c) + [Submit(f, now, number).added.value])
    ensures Submit(f, now, number).added.value
            in Storage.GetTodayLogs(Storage.AddLog(s, Submit(f, now, number).added.value, c, true), now.date, c)
  {
    Storage.AddedEntryShowsToday(s, Submit(f, now, number).added.value, now.date, c);
  }
}
