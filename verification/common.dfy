/** Small shared vocabulary: an optional value, used for every operation of the
    watchdog that can fail instead of producing a result. */
module Common {

  datatype Option<+T> = None | Some(value: T)
}
