/** Responses of the controllers, reduced to what a client can observe:
    the HTTP status and either the body or the error message. */
module Http {

  datatype Reply<+T> =
    | Ok(status: nat, body: T)
    /** `details` carries the `missingFields` list of onboarding and is empty otherwise. */
    | Refused(status: nat, message: string, details: seq<string>)

  const InternalError := "Internal Server Error"
}
