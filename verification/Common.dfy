/** Declarations that several components share. */
module Common {
  datatype Option<T> = None | Some(value: T)

  /** Elements copied over a part of a buffer. */
  function Splice<T>(s: seq<T>, at: nat, part: seq<T>): (r: seq<T>)
    requires at + |part| <= |s|
    ensures |r| == |s|
  {
    s[..at] + part + s[at + |part|..]
  }

  /** `memcpy` into an array. */
  method Memcpy<T>(dst: array<T>, at: nat, part: seq<T>)
    requires at + |part| <= dst.Length
    modifies dst
    ensures dst[..] == Splice(old(dst[..]), at, part)
  {
    for i := 0 to |part|
      invariant dst[..at] == old(dst[..at])
      invariant dst[at..at + i] == part[..i]
      invariant dst[at + i..] == old(dst[at + i..])
    {
      dst[at + i] := part[i];
    }
  }

  /** Error numbers, returned negated. */
  const ENOENT := 2
  const EAGAIN := 11
  const EINVAL := 22
  const ENOSPC := 28
  const ENOSYS := 38
}
