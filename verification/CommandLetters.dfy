/** The letters of the commands that host and mote exchange. */
module CommandLetters {
  import opened SlipCodec

  const BANG: byte := 33
  const QUERY: byte := 63

  const CHAR_C: byte := 67
  const CHAR_D: byte := 68
  const CHAR_G: byte := 71
  const CHAR_M: byte := 77
  const CHAR_R: byte := 82
  const CHAR_S: byte := 83
}
