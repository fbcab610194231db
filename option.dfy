/** The optional value used wherever the pages hold `T | null` or
    `T | undefined`. */
module Optional {
  datatype Option<+T> = None | Some(value: T)
}
