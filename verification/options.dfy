/**
  A value that may be absent: what a name lookup gives when no dial carries
  the name, and what a frame hands to the audio engine when it plays nothing.
 */
module Options {

  datatype Option<+T> = None | Some(value: T)

}
