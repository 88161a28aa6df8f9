/** What a controller answers: an HTTP status code and a body. A handler
    that lets an exception escape is modelled as `Err`, not as a response. */
module Responses {
  import opened Model

  datatype Body =
    | NoBody
    | Text(text: string)
    | Entry(lancamento: Lancamento)
    | Entries(lancamentos: seq<Lancamento>)
    | User(usuario: Usuario)
    | Amount(value: real)

  datatype Response = Response(status: int, body: Body)

  const HttpOk := 200
  const HttpCreated := 201
  const HttpNoContent := 204
  const HttpBadRequest := 400
  const HttpNotFound := 404

  /** `ResponseEntity.badRequest().body(e.getMessage())`. */
  function BadRequest(f: Failure): (r: Response)
    requires f.RegraNegocio? || f.ErroAutenticacao?
    ensures r.status == HttpBadRequest && r.body.Text? && r.body.text == Message(f)
  {
    Response(HttpBadRequest, Text(Message(f)))
  }
}
