/** Failures of the sequence extensions, as values instead of .NET exceptions. */
module Results {

  datatype Error =
    | EmptySource    // LocalMinima/LocalMaxima: "Source collection is empty"
    | NoElements     // IndexOfLocalMinima/Maxima: First() on a stream with no window
    | EmptyOrdering  // OrderToMatch: "Ordering collection cannot be empty."
    | DuplicateKey   // OrderToMatch: ToDictionary met the same ordering key twice

  datatype Result<T> = Ok(value: T) | Err(error: Error)
}
