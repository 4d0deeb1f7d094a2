/** What a controller sees of a request and answers with. A request field is
    absent or carries its text (and, for dates, what `new Date(text)`
    makes of it); an answer is a status code with a JSON body or an error
    message. */
module Http {
  import opened Wrappers

  const Ok: nat := 200
  const Created: nat := 201
  const BadRequest: nat := 400
  const NotFound: nat := 404
  const ServerError: nat := 500

  /** A request field: absent (undefined) or given as text together with the
      value the controller derives from it. */
  datatype Param<T> = Absent | Given(text: string, value: T)

  /** JavaScript falsiness of a text field: undefined or the empty string. */
  predicate Falsy<T>(p: Param<T>) {
    p.Absent? || p.text == ""
  }

  /** JavaScript falsiness of a plain text field of a JSON body. */
  predicate FalsyText(s: Option<string>) {
    s.None? || s.value == ""
  }

  /** Extra members of an error body. */
  datatype Detail =
    | NoDetail
    | Missing(fields: seq<string>)   // the `missing` list of a 400
    | Field(field: Option<string>)   // the unique column of a P2002

  datatype Reply<T> =
    | Json(status: nat, body: T)
    | Error(status: nat, error: string, detail: Detail)
}
