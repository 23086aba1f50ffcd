/** Status codes returned by LibJuno operations; only the codes reachable in the
    modelled functions are listed. */
module Status {
  datatype Status =
    | Success
    | Err
    | NullPtr
    | MemAlloc
    | MemFree
    | InvalidSize
    | TableFull
    | DoesNotExist
    | InvalidData
    | Timeout
    | OutOfBounds

  datatype Option<+T> = None | Some(value: T)
}
