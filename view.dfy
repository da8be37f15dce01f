/** What the mock-interview form shows: the labels chosen by create or edit mode, and
    when its buttons are disabled. */
module FormView {
  import opened Wrappers
  import opened FormSchema

  /** The stored interview the form may be opened on (`initialData`). */
  datatype Interview = Interview(id: string, position: string, description: string, experience: real, techStack: string)

  datatype Toast = Toast(title: string, description: string)

  /** The heading, the breadcrumb's page, the submit button's caption and the toast
      shown after saving. */
  datatype Labels = Labels(title: string, breadCrumbPage: string, actions: string, toast: Toast)

  const CreateTitle := "Create a new mock interview"
  const CreatePage := "Create"
  const CreateToast := Toast("Created", "New mock interview created...")
  const UpdateToast := Toast("updated", "Changes saved successfully...")

  /** The values the resolver would validate for a stored interview. */
  function AsFormData(i: Interview): FormData {
    FormData(i.position, i.description, i.experience, i.techStack)
  }

  /** `initialData?.position ? ... : ...` tests a string for truthiness: it is set and
      not empty. An interview whose values pass the schema, as one saved through this
      form does, always has it. */
  predicate HasPosition(initialData: Option<Interview>)
    ensures HasPosition(initialData) ==> initialData.Some?
    ensures initialData.Some? && |initialData.value.position| == 0 ==> !HasPosition(initialData)
    ensures initialData.Some? && IsValid(AsFormData(initialData.value)) ==> HasPosition(initialData)
  {
    match initialData
    case None => false
    case Some(i) => ValidIffBounds(AsFormData(i)); i.position != ""
  }

  /** The labels of the two modes. Heading and breadcrumb agree, showing either the
      stored position or the create fallbacks; caption and toast agree on the mode; and a
      heading that shows a stored position belongs to edit mode. */
  function ModeLabels(initialData: Option<Interview>): (l: Labels)
    ensures l.title == l.breadCrumbPage || (l.title == CreateTitle && l.breadCrumbPage == CreatePage)
    ensures l.actions == "Save changes" <==> l.toast == UpdateToast
    ensures HasPosition(initialData) ==> l.actions == "Save changes"
  {
    Labels(
      if HasPosition(initialData) then initialData.value.position else CreateTitle,
      if HasPosition(initialData) then initialData.value.position else CreatePage,
      if initialData.Some? then "Save changes" else "Create",
      if initialData.Some? then UpdateToast else CreateToast)
  }

  /** The caption and the toast tell the modes apart: each names edit mode exactly when
      there is initial data. */
  lemma ModeDecidesActionAndToast(initialData: Option<Interview>)
    ensures ModeLabels(initialData).actions == "Save changes" <==> initialData.Some?
    ensures ModeLabels(initialData).actions == "Create" <==> initialData.None?
    ensures ModeLabels(initialData).toast.title == "updated" <==> initialData.Some?
    ensures ModeLabels(initialData).toast ==
      if initialData.Some? then Toast("updated", "Changes saved successfully...")
      else Toast("Created", "New mock interview created...")
  {
    assert |"Save changes"| != |"Create"|;
    assert "updated"[0] != "Created"[0];
  }

  /** Heading and breadcrumb name the existing position when it is not empty, and fall
      back together otherwise. */
  lemma HeadingFollowsPosition(initialData: Option<Interview>)
    ensures HasPosition(initialData) ==>
      ModeLabels(initialData).title == ModeLabels(initialData).breadCrumbPage == initialData.value.position
    ensures !HasPosition(initialData) ==>
      ModeLabels(initialData).title == "Create a new mock interview" &&
      ModeLabels(initialData).breadCrumbPage == "Create"
  {}

  /** An interview stored with an empty position opens in edit mode under the create
      heading. */
  lemma EmptyPositionEditsUnderCreateHeading(initialData: Option<Interview>)
    requires initialData.Some? && initialData.value.position == ""
    ensures ModeLabels(initialData).title == "Create a new mock interview"
    ensures ModeLabels(initialData).actions == "Save changes"
  {}

  /** The form state the buttons read: react-hook-form's `isSubmitting` and `isValid`,
      and the component's `loading` flag. */
  datatype FormState = FormState(isSubmitting: bool, loading: bool, isValid: bool)

  /** Submit cannot be pressed again while a submission is running or saving, nor on an
      invalid form. */
  predicate SubmitDisabled(st: FormState)
    ensures st.isSubmitting || st.loading ==> SubmitDisabled(st)
    ensures !st.isValid ==> SubmitDisabled(st)
  {
    st.isSubmitting || st.loading || !st.isValid
  }

  /** Once the form is idle, the submit button follows validity alone. */
  predicate ResetDisabled(st: FormState)
    ensures !ResetDisabled(st) ==> (SubmitDisabled(st) <==> !st.isValid)
  {
    st.isSubmitting || st.loading
  }

  datatype ButtonContent = Spinner | Caption(text: string)

  /** While loading the submit button shows a spinner, otherwise the mode's caption. */
  function SubmitContent(st: FormState, labels: Labels): (c: ButtonContent)
    ensures c.Caption? <==> !st.loading
    ensures c.Caption? ==> c.text == labels.actions
  {
    if st.loading then Spinner else Caption(labels.actions)
  }

  /** `isValid` is the resolver's verdict on the current values: it is set exactly when
      no field has a message. */
  predicate Tracks(st: FormState, d: FormData)
    ensures Tracks(st, d) ==> (st.isValid <==> forall f :: FieldMessage(d, f).None?)
  {
    st.isValid == IsValid(d)
  }

  /** Submit can be pressed exactly when the form is idle and all four bounds hold. */
  lemma SubmitEnabledIffIdleAndInBounds(st: FormState, d: FormData)
    requires Tracks(st, d)
    ensures !SubmitDisabled(st) <==>
      && !st.isSubmitting && !st.loading
      && 1 <= |d.position| <= 100 && |d.description| >= 10
      && d.experience >= 0.0 && |d.techStack| >= 1
  {
    ValidIffBounds(d);
  }

  /** A negative experience never reaches the model: submit stays disabled, and the
      resolver reports the experience message for the field. */
  lemma NegativeExperienceCannotSubmit(st: FormState, d: FormData)
    requires Tracks(st, d) && d.experience < 0.0
    ensures SubmitDisabled(st)
    ensures FieldMessage(d, Experience) == Some("Experience can not be negative")
  {
    ValidIffBounds(d);
    ExperienceFieldMessage(d);
  }

  /** Any field with a message keeps submit disabled, and an enabled submit means every
      field is clear. */
  lemma FieldMessageDisablesSubmit(st: FormState, d: FormData, f: Field)
    requires Tracks(st, d)
    ensures FieldMessage(d, f).Some? ==> SubmitDisabled(st)
    ensures !SubmitDisabled(st) ==> FieldMessage(d, f).None?
  {}

  /** When reset is disabled, submit is too; submit is disabled besides only by an
      invalid form. */
  lemma ResetDisabledImpliesSubmitDisabled(st: FormState)
    ensures ResetDisabled(st) ==> SubmitDisabled(st)
    ensures SubmitDisabled(st) && !ResetDisabled(st) <==> !st.isValid && !st.isSubmitting && !st.loading
  {}

  /** The submit button shows a spinner while loading and otherwise names the mode. */
  lemma CaptionNamesMode(st: FormState, initialData: Option<Interview>)
    ensures st.loading ==> SubmitContent(st, ModeLabels(initialData)) == Spinner
    ensures !st.loading ==>
      SubmitContent(st, ModeLabels(initialData)) == Caption(if initialData.Some? then "Save changes" else "Create")
  {}

  /** The button's content follows `loading` alone: while a submission runs before
      `loading` is set, or on an invalid form, the disabled button still shows its
      caption. */
  lemma SpinnerFollowsLoadingOnly(st1: FormState, st2: FormState, labels: Labels)
    requires st1.loading == st2.loading
    ensures SubmitContent(st1, labels) == SubmitContent(st2, labels)
  {}
}
