/** An optional value: used for Go's nil-able error results and for the timer
    that exists only while the refresh loop runs. */
module Options {

  datatype Option<+T> = None | Some(value: T)

}
