/** Byte strings, as the Go `bytes` package sees them. */
module Bytes {

  /** One octet of a Go `[]byte`. */
  newtype byte = b: int | 0 <= b < 256

  type Bytes = seq<byte>

  /** The line terminator `'\n'`. */
  const NL: byte := 10

  /** `bytes.IndexByte`: the index of the first `c` in `s`, or -1 when `s` holds none. */
  function IndexByte(s: Bytes, c: byte): (i: int)
    ensures -1 <= i < |s|
    ensures i == -1 <==> c !in s
    ensures 0 <= i ==> s[i] == c && c !in s[..i]
  {
    if |s| == 0 then -1
    else if s[0] == c then 0
    else
      var j := IndexByte(s[1..], c);
      assert s == [s[0]] + s[1..];
      if j == -1 then -1
      else
        assert s[..j + 1] == [s[0]] + s[1..][..j];
        j + 1
  }
}
