/** An optional value, for the places where the downloader returns `None`. */
module Results {
  datatype Option<T> = None | Some(value: T)
}
