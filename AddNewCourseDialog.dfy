/** The course-creation dialog: its form record, the per-field update, the
    ordered validation on submit, and the generation step with its loading
    flag. `Number(...)` is a parameter of the model (`parse`), and the
    generation request is returned rather than sent. */
module AddNewCourseDialog {
  import opened Wrappers
  import opened CourseTypes

  datatype FormData = FormData(
    name: string,
    description: string,
    courseId: string,
    includeVideo: bool,
    chapters: string,
    level: string,
    category: string)

  const EmptyForm := FormData("", "", "", false, "", "", "")

  /** The text fields of the form. */
  datatype TextField = Name | Description | CourseIdField | Chapters | Level | Category

  function TextOf(form: FormData, field: TextField): string {
    match field
    case Name => form.name
    case Description => form.description
    case CourseIdField => form.courseId
    case Chapters => form.chapters
    case Level => form.level
    case Category => form.category
  }

  /** The changes the inputs make: a text field gets a string, the checkbox a boolean. */
  datatype FieldUpdate = SetText(field: TextField, text: string) | SetIncludeVideo(checked: bool)

  /** `{ ...prev, [field]: value }`: the named field takes the value, every other field keeps its own. */
  function ApplyInput(form: FormData, update: FieldUpdate): (updated: FormData)
    ensures update.SetText? ==> TextOf(updated, update.field) == update.text
    ensures update.SetText? ==> updated.includeVideo == form.includeVideo
    ensures update.SetText? ==> forall g :: g != update.field ==> TextOf(updated, g) == TextOf(form, g)
    ensures update.SetIncludeVideo? ==> updated.includeVideo == update.checked
    ensures update.SetIncludeVideo? ==> forall g :: TextOf(updated, g) == TextOf(form, g)
  {
    match update
    case SetIncludeVideo(b) => form.(includeVideo := b)
    case SetText(field, v) =>
      match field
      case Name => form.(name := v)
      case Description => form.(description := v)
      case CourseIdField => form.(courseId := v)
      case Chapters => form.(chapters := v)
      case Level => form.(level := v)
      case Category => form.(category := v)
  }

  /** Writing the same field twice keeps only the second value. */
  lemma ApplyInputLastWriteWins(form: FormData, field: TextField, first: string, second: string)
    ensures ApplyInput(ApplyInput(form, SetText(field, first)), SetText(field, second))
         == ApplyInput(form, SetText(field, second))
  {
  }

  /** A JavaScript number as `Number(...)` yields it. */
  datatype JsNumber = NaN | Finite(value: real) | PositiveInfinity | NegativeInfinity

  const MissingFieldsMessage := "Please fill out all required fields."
  const InvalidChaptersMessage := "Please enter a valid number of chapters."
  const TooManyChaptersMessage := "Maximum 6 chapters are allowed."

  /** What submitting decides: stop with a message, or go on to generation. */
  datatype SubmitDecision = Reject(message: string) | Proceed

  /** Name, description, chapters, level and category are all non-empty. */
  predicate RequiredFilled(form: FormData) {
    form.name != "" && form.description != "" && form.chapters != "" && form.level != "" && form.category != ""
  }

  /** Neither NaN nor `<= 0`. */
  predicate PositiveNumber(n: JsNumber) {
    n.PositiveInfinity? || (n.Finite? && n.value > 0.0)
  }

  /** Not `> 6`. */
  predicate AtMostSix(n: JsNumber) {
    n.Finite? && n.value <= 6.0
  }

  /** The guards of `onSubmit`, in order; the first that fails gives the message. */
  function ValidateForm(form: FormData, parse: string -> JsNumber): (decision: SubmitDecision)
    ensures decision == Reject(MissingFieldsMessage) <==> !RequiredFilled(form)
    ensures decision == Reject(InvalidChaptersMessage) <==> RequiredFilled(form) && !PositiveNumber(parse(form.chapters))
    ensures decision == Reject(TooManyChaptersMessage) <==>
              RequiredFilled(form) && PositiveNumber(parse(form.chapters)) && !AtMostSix(parse(form.chapters))
    ensures decision.Proceed? <==>
              RequiredFilled(form) && parse(form.chapters).Finite? && 0.0 < parse(form.chapters).value <= 6.0
  {
    if !RequiredFilled(form) then Reject(MissingFieldsMessage)
    else
      var chaptersNumber := parse(form.chapters);
      if chaptersNumber.NaN? || (chaptersNumber.Finite? && chaptersNumber.value <= 0.0) || chaptersNumber.NegativeInfinity? then
        Reject(InvalidChaptersMessage)
      else if chaptersNumber.PositiveInfinity? || chaptersNumber.value > 6.0 then
        Reject(TooManyChaptersMessage)
      else Proceed
  }

  /** Neither the checkbox nor the unused course-id field takes part in validation. */
  lemma ValidationIgnoresOptionalFields(form: FormData, parse: string -> JsNumber, includeVideo: bool, courseId: string)
    ensures ValidateForm(form.(includeVideo := includeVideo, courseId := courseId), parse) == ValidateForm(form, parse)
  {
  }

  /** A fractional count within range, such as `2.5`, passes every guard. */
  lemma FractionalChapterCountAccepted(form: FormData, parse: string -> JsNumber)
    requires RequiredFilled(form) && parse(form.chapters) == Finite(2.5)
    ensures ValidateForm(form, parse) == Proceed
  {
  }

  /** The body of the generation request. */
  datatype GenerateRequest = GenerateRequest(
    email: string,
    courseId: string,
    name: string,
    description: string,
    category: string,
    level: string,
    includeVideo: bool,
    noOfChapters: JsNumber)

  /** One mounted dialog: the form record and the loading flag. */
  class CourseDialog {
    var formData: FormData
    var loading: bool

    constructor ()
      ensures formData == EmptyForm && !loading
    {
      formData := EmptyForm;
      loading := false;
    }

    /** `onHandleInputChange`. */
    method OnHandleInputChange(update: FieldUpdate)
      modifies this`formData
      ensures formData == ApplyInput(old(formData), update)
    {
      formData := ApplyInput(formData, update);
    }

    /** `onGenerate`: with no user email it stops before any request; otherwise
        it builds the request from the form under the fresh course id. The
        loading flag is down again on every path. */
    method OnGenerate(parse: string -> JsNumber, userEmail: Option<string>, newCourseId: string)
      returns (request: Option<GenerateRequest>)
      modifies this`loading
      ensures !loading
      ensures request.Some? <==> TruthyText(userEmail)
      ensures request.Some? ==> request.value == GenerateRequest(userEmail.value, newCourseId,
                formData.name, formData.description, formData.category, formData.level,
                formData.includeVideo, parse(formData.chapters))
    {
      loading := true;
      if !TruthyText(userEmail) {
        loading := false;
        return None;
      }
      request := Some(GenerateRequest(userEmail.value, newCourseId,
        formData.name, formData.description, formData.category, formData.level,
        formData.includeVideo, parse(formData.chapters)));
      loading := false;
    }

    /** `onSubmit`: validation, then generation only when every guard passes. */
    method OnSubmit(parse: string -> JsNumber, userEmail: Option<string>, newCourseId: string)
      returns (decision: SubmitDecision, request: Option<GenerateRequest>)
      modifies this`loading
      ensures decision == ValidateForm(formData, parse)
      ensures decision.Reject? ==> request == None && loading == old(loading)
      ensures decision.Proceed? ==> !loading && (request.Some? <==> TruthyText(userEmail))
      ensures request.Some? ==> request.value.noOfChapters == parse(formData.chapters)
      ensures request.Some? ==>
        (request.value.noOfChapters.Finite? && 0.0 < request.value.noOfChapters.value <= 6.0)
    {
      decision := ValidateForm(formData, parse);
      if decision.Reject? {
        return decision, None;
      }
      request := OnGenerate(parse, userEmail, newCourseId);
    }
  }
}
