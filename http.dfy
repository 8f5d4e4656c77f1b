/** What a request handler or middleware sends back: the HTTP status code and the
    `message` of the JSON body (empty when the body is the affected document). */
module Http {

  datatype Response = Response(status: nat, message: string)
}
