/** C strings in buffers of a fixed size. */
module CText {

  /** What snprintf(dst, size, "%s", s) leaves in dst, without the terminator. */
  function Clip(s: string, size: nat): (r: string)
    requires size > 0
    ensures r <= s && |r| == if |s| < size then |s| else size - 1
  {
    if |s| < size then s else s[..size - 1]
  }
}
