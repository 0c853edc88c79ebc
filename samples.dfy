/**
 * Byte strings used by the scenarios and the counterexamples: the strings of
 * the package's tests, and pairs at the Short/Inlined and Inlined/Long class
 * boundaries added by this model.
 */
module StumbraSamples {
  import opened ByteSeq

  const Empty: seq<byte> := []
  const Hello: seq<byte> := [0x68, 0x65, 0x6c, 0x6c, 0x6f]           // "hello"
  const World: seq<byte> := [0x77, 0x6f, 0x72, 0x6c, 0x64]           // "world"
  const Abcd: seq<byte> := [0x61, 0x62, 0x63, 0x64]                  // "abcd"
  const Abcde: seq<byte> := Abcd + [0x65]                            // "abcde"
  const Abcdf: seq<byte> := Abcd + [0x66]                            // "abcdf"
  const Abcd3X: seq<byte> := Abcd + Abcd + Abcd + [0x58]             // "abcdabcdabcdX"
  const Abcd3Y: seq<byte> := Abcd + Abcd + Abcd + [0x59]             // "abcdabcdabcdY"
}
