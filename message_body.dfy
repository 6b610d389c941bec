/** MessageBody: the errors the request bodies report. */
module MessageBody {

  /** MessageBody::ReadError */
  datatype BodyReadError = BodyOk | BodyConnectionClosed | BodyBadSyntax
}
