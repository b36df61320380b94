/**
  The contact form (src/components/Contact.tsx).

  Four text fields and two flags. Typing replaces one field of the form record.
  Submitting runs a simulated send: `isSubmitting` is raised, two seconds later
  it is lowered and `isSubmitted` raised, and three seconds after that the form
  is cleared and `isSubmitted` lowered. The button's disabled state, its label
  and the success banner are read off the two flags. Each delayed continuation
  is one step here.
 */
module Contact {

  /** The `name` attributes of the form's four inputs. */
  datatype Field = Name | Email | Subject | Message

  datatype FormData = FormData(name: string, email: string, subject: string, message: string)

  const EmptyForm := FormData("", "", "", "")

  /** The value an input shows for its field. */
  function Get(form: FormData, field: Field): string {
    match field
    case Name => form.name
    case Email => form.email
    case Subject => form.subject
    case Message => form.message
  }

  /** `handleInputChange`: the form record with the named field replaced by the
      event's value and the other three copied over. */
  function HandleInputChange(form: FormData, field: Field, value: string): (r: FormData)
    ensures Get(r, field) == value
    ensures forall f :: f != field ==> Get(r, f) == Get(form, f)
  {
    match field
    case Name => form.(name := value)
    case Email => form.(email := value)
    case Subject => form.(subject := value)
    case Message => form.(message := value)
  }

  /** All four inputs carry `required`: the browser refuses to submit while one is empty. */
  predicate AllFilled(form: FormData) {
    forall f: Field :: Get(form, f) != ""
  }

  datatype FormState = FormState(formData: FormData, isSubmitting: bool, isSubmitted: bool)

  const InitialState := FormState(EmptyForm, false, false)

  /** Line 198: the button is disabled while sending or sent. */
  predicate ButtonDisabled(s: FormState)
    ensures ButtonDisabled(s) <==> ButtonLabel(s) != "Send Message"
  {
    s.isSubmitting || s.isSubmitted
  }

  /** Line 203. */
  function ButtonLabel(s: FormState): (caption: string)
    ensures caption in {"Sending...", "Sent!", "Send Message"}
  {
    if s.isSubmitting then "Sending..." else if s.isSubmitted then "Sent!" else "Send Message"
  }

  /** Line 135: the success banner. */
  predicate BannerShown(s: FormState)
    ensures BannerShown(s) && Exclusive(s) ==> ButtonLabel(s) == "Sent!"
    ensures !BannerShown(s) ==> ButtonLabel(s) != "Sent!"
  {
    s.isSubmitted
  }

  /** Line 201: the send icon bounces while sending. */
  predicate IconBounces(s: FormState)
    ensures IconBounces(s) <==> ButtonLabel(s) == "Sending..."
  {
    s.isSubmitting
  }

  /** The two flags are never raised together. */
  predicate Exclusive(s: FormState) {
    !(s.isSubmitting && s.isSubmitted)
  }

  /** Pressing the submit button: ignored while it is disabled or a required field is
      empty; otherwise `handleSubmit` starts and raises `isSubmitting` (line 26). */
  function Submit(s: FormState): (r: FormState)
    ensures r.formData == s.formData
    ensures ButtonDisabled(s) || !AllFilled(s.formData) ==> r == s
    ensures !ButtonDisabled(s) && AllFilled(s.formData) ==> r.isSubmitting && !r.isSubmitted
  {
    if ButtonDisabled(s) || !AllFilled(s.formData) then s else s.(isSubmitting := true)
  }

  /** The simulated send resolves after two seconds (lines 31-32). */
  function SubmissionResolved(s: FormState): (r: FormState)
    ensures r.formData == s.formData
    ensures !r.isSubmitting && r.isSubmitted
  {
    s.(isSubmitting := false, isSubmitted := true)
  }

  /** Three seconds after success the form is cleared and the banner goes (lines 35-38). */
  function ResetAfterSuccess(s: FormState): (r: FormState)
    ensures r.formData == EmptyForm && forall f :: Get(r.formData, f) == ""
    ensures !r.isSubmitted && r.isSubmitting == s.isSubmitting
  {
    s.(formData := EmptyForm, isSubmitted := false)
  }

  /** Every change the component can make keeps the two flags exclusive. */
  lemma TransitionsKeepExclusive(s: FormState, field: Field, value: string)
    requires Exclusive(s)
    ensures Exclusive(s.(formData := HandleInputChange(s.formData, field, value)))
    ensures Exclusive(Submit(s))
    ensures Exclusive(SubmissionResolved(s))
    ensures Exclusive(ResetAfterSuccess(s))
  {
  }

  /** The label reads "Send Message" exactly when the button is enabled, and the
      banner only shows while the button is disabled. */
  lemma LabelAgreesWithButton(s: FormState)
    ensures ButtonLabel(s) == "Send Message" <==> !ButtonDisabled(s)
    ensures BannerShown(s) ==> ButtonDisabled(s) && ButtonLabel(s) != "Send Message"
  {
  }

  /** A submission from a filled, idle form: the flags go (false, false), (true, false),
      (false, true), (false, false); the data stays put until the final step, which
      clears all four fields; button, label and banner follow. */
  lemma SubmissionSequence(form: FormData)
    requires AllFilled(form)
    ensures var s0 := FormState(form, false, false);
      var s1 := Submit(s0);
      var s2 := SubmissionResolved(s1);
      var s3 := ResetAfterSuccess(s2);
      s1 == FormState(form, true, false)
      && s2 == FormState(form, false, true)
      && s3 == FormState(EmptyForm, false, false)
      && ButtonLabel(s0) == "Send Message" && ButtonLabel(s1) == "Sending..."
      && ButtonLabel(s2) == "Sent!" && ButtonLabel(s3) == "Send Message"
      && !ButtonDisabled(s0) && ButtonDisabled(s1) && ButtonDisabled(s2) && !ButtonDisabled(s3)
      && !BannerShown(s1) && BannerShown(s2) && !BannerShown(s3)
  {
  }

  /** The component's state, updated in place by its handlers. */
  class ContactForm {
    var formData: FormData
    var isSubmitting: bool
    var isSubmitted: bool

    ghost predicate Valid()
      reads this
    {
      Exclusive(Current())
    }

    function Current(): FormState
      reads this
    {
      FormState(formData, isSubmitting, isSubmitted)
    }

    constructor ()
      ensures Valid() && Current() == InitialState
    {
      formData := EmptyForm;
      isSubmitting := false;
      isSubmitted := false;
    }

    /** Typing into one input (lines 17-22); the flags are untouched. */
    method OnInputChange(field: Field, value: string)
      requires Valid()
      modifies this
      ensures Valid()
      ensures formData == HandleInputChange(old(formData), field, value)
      ensures isSubmitting == old(isSubmitting) && isSubmitted == old(isSubmitted)
    {
      formData := HandleInputChange(formData, field, value);
    }

    /** The form's submit event, which the browser only delivers through an enabled
        button and with every required field filled; `handleSubmit` then raises
        `isSubmitting` (line 26). */
    method OnSubmit()
      requires Valid()
      modifies this
      ensures Valid()
      ensures Current() == Submit(old(Current()))
    {
      if isSubmitting || isSubmitted {
        return;
      }
      if formData.name == "" || formData.email == "" || formData.subject == "" || formData.message == "" {
        assert Get(formData, Name) == "" || Get(formData, Email) == ""
          || Get(formData, Subject) == "" || Get(formData, Message) == "";
        return;
      }
      isSubmitting := true;
    }

    /** The continuation after the two-second await (lines 31-32). */
    method OnSendResolved()
      requires Valid()
      modifies this
      ensures Valid()
      ensures Current() == SubmissionResolved(old(Current()))
    {
      isSubmitting := false;
      isSubmitted := true;
    }

    /** The reset timeout (lines 35-38). */
    method OnResetTimeout()
      requires Valid()
      modifies this
      ensures Valid()
      ensures Current() == ResetAfterSuccess(old(Current()))
    {
      formData := FormData("", "", "", "");
      isSubmitted := false;
    }
  }
}
