/**
 * The submit handler of src/components/StudentForm.jsx, as a transition on the
 * form's (name, note, error) state that may hand a new pass to `onAddStudent`.
 */
module Form {
  import opened Wrappers
  import opened Calendar
  import opened Db
  import JsText

  /** The three pieces of form state. */
  datatype FormState = FormState(name: string, note: string, error: string)

  /** The argument of `onAddStudent({ name, note })`. */
  datatype NewPass = NewPass(name: string, note: string)

  /** The new state and the pass handed on, if any. */
  datatype Submit = Submit(state: FormState, added: Option<NewPass>)

  /** '生徒名は必須です。': "the student name is required". */
  const NameRequiredMessage: string := "生徒名は必須です。"

  /**
   * `handleSubmit`: a name that trims to nothing only sets the error; otherwise the
   * error is cleared, the name and note go out exactly as typed, and both fields empty.
   */
  function HandleSubmit(st: FormState): (r: Submit)
    ensures JsText.AllWhite(st.name) ==>
              r.added.None? && r.state.error == NameRequiredMessage
              && r.state.name == st.name && r.state.note == st.note
    ensures !JsText.AllWhite(st.name) ==>
              r.added == Some(NewPass(st.name, st.note)) && r.state == FormState("", "", "")
  {
    JsText.TrimEmptyIff(st.name);
    if JsText.Trim(st.name) == "" then Submit(st.(error := NameRequiredMessage), None)
    else
      var cleared := st.(error := "");
      Submit(cleared.(name := "", note := ""), Some(NewPass(st.name, st.note)))
  }

  /** The note never decides acceptance: two forms differing only in their notes are treated alike. */
  lemma NoteNeverRejects(st: FormState, otherNote: string)
    ensures HandleSubmit(st).added.Some? <==> HandleSubmit(st.(note := otherNote)).added.Some?
  {
  }

  /**
   * A name the form accepts always passes `createPass`'s own check, so the store
   * gains a record carrying the untrimmed name and the note as typed.
   */
  lemma SubmitThenCreate(z: Zone, st: FormState, store: Store, id: string, now: int)
    requires id !in store
    requires !JsText.AllWhite(st.name)
    ensures var np := HandleSubmit(st).added.value;
            var r := CreatePass(z, store, np.name, np.note, id, now);
            && r.result.Some?
            && r.store[id].name == st.name && r.store[id].note == st.note
            && r.store[id].tickets == InitialTickets
  {
  }
}
