/**
 * The `ErrorItemDTO` record with its constructor checks, and the outcomes the
 * controllers produce (HTTP statuses, form redisplays and redirects).
 */
module Util {
  import opened Wrappers
  import opened Constraints

  /** A field name and a message, both required to be non-empty. */
  datatype ErrorItemDTO = ErrorItemDTO(field: string, message: string)

  /** The records the compact constructor lets through. */
  type ErrorItem = e: ErrorItemDTO | e.field != [] && e.message != [] witness ErrorItemDTO("f", "m")

  const FieldNullMessage := "Descrição do campo não deve ser nula"
  const FieldEmptyMessage := "Descrição do campo não deve estar vazia"
  const MessageNullMessage := "Descrição da mensagem não deve ser nula"
  const MessageEmptyMessage := "Descrição da mensagem não deve estar vazia"

  /**
   * The compact constructor: the field is checked before the message, and null
   * before empty; the first failed check raises with its message. Only emptiness
   * is checked, so a field or message made of spaces is accepted.
   */
  function MakeErrorItem(field: Text, message: Text): (r: Result<ErrorItem, string>)
    ensures r.Success? <==> field.Some? && field.value != [] && message.Some? && message.value != []
    ensures r.Success? ==> r.value.field == field.value && r.value.message == message.value
    ensures field.None? ==> r == Failure(FieldNullMessage)
    ensures field.Some? && field.value == [] ==> r == Failure(FieldEmptyMessage)
    ensures field.Some? && field.value != [] && message.None? ==> r == Failure(MessageNullMessage)
    ensures field.Some? && field.value != [] && message.Some? && message.value == [] ==> r == Failure(MessageEmptyMessage)
  {
    if field.None? then Failure(FieldNullMessage)
    else if field.value == [] then Failure(FieldEmptyMessage)
    else if message.None? then Failure(MessageNullMessage)
    else if message.value == [] then Failure(MessageEmptyMessage)
    else Success(ErrorItemDTO(field.value, message.value))
  }

  /** Every stored record can be rebuilt from its own components. */
  lemma ErrorItemRoundTrip(e: ErrorItem)
    ensures MakeErrorItem(Some(e.field), Some(e.message)) == Success(e)
  {
  }

  /** Only emptiness is checked: a blank but non-empty field or message is stored as given. */
  lemma BlankErrorItemAccepted(field: string, message: string)
    requires field != [] && message != []
    requires !NotBlank(Some(field)) && !NotBlank(Some(message))
    ensures MakeErrorItem(Some(field), Some(message)) == Success(ErrorItemDTO(field, message))
  {
  }

  /** An error that `BindingResult.rejectValue(field, errorCode, defaultMessage)` records. */
  datatype Rejection = Rejection(field: string, errorCode: string, defaultMessage: string)

  /** The body of a response. */
  datatype Body =
    | Empty
    | Message(text: string)
    | Error(item: ErrorItem)
    | InvalidFields(fields: set<string>)

  /**
   * The view `handleConstraintViolationException` renders when the entity's own
   * validation fails on persist or update: the new-category form, whichever
   * entity failed, with the violated properties.
   */
  const ConstraintViolationView := "admin/category/newForm"

  function ConstraintViolation(properties: set<string>): Response
  {
    FormRedisplay(ConstraintViolationView, properties, [])
  }

  /** What a controller method returns. */
  datatype Response =
    | Ok
    | Created
    | NotFound(body: Body)
    | BadRequest(body: Body)
    | Conflict(body: Body)
    /** The named view rendered again, with the fields that failed validation and explicit rejections. */
    | FormRedisplay(view: string, invalidFields: set<string>, rejections: seq<Rejection>)
    | Redirect(target: string)
}
