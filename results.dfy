/** Outcomes shared by every handler: an optional value, the three error
    kinds the routes distinguish (a 400, a 404, a 500), and a result. */
module Results {

  datatype Option<T> = None | Some(value: T)

  /** Validation is answered with status 400, NotFound with 404, and
      Internal with 500 (a thrown exception caught by the route's catch). */
  datatype Error = Validation | NotFound | Internal

  datatype Result<T> = Ok(value: T) | Err(error: Error)
}
