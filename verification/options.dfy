/** The optional value used wherever the player reads something that may be
    absent: a JSON field that is missing, a mount that is not selected yet, a
    search that found nothing. */
module Options {

  datatype Option<+T> = None | Some(value: T)
}
