/** What a file holds after writes that may reach beyond the buffer they are given
    (srcs/Request/ARequest-body.cpp:76). */
module FileWrites {
  import opened Octets

  /** An octet of a file: one of the buffer, or whatever lay behind it in memory. */
  datatype Cell = Octet(value: char) | Stray

  function Cells(s: octets): (r: seq<Cell>)
    ensures |r| == |s|
  {
    seq(|s|, i requires 0 <= i < |s| => Octet(s[i]))
  }

  /** `_file.write(buffer.c_str(), length)`. */
  function Written(buffer: octets, length: nat): (r: seq<Cell>)
    ensures |r| == length
    ensures length <= |buffer| ==> r == Cells(buffer[..length])
  {
    if length <= |buffer| then Cells(buffer[..length])
    else Cells(buffer) + seq(length - |buffer|, _ => Stray)
  }

  lemma CellsAppend(a: octets, b: octets)
    ensures Cells(a + b) == Cells(a) + Cells(b) && Cells("") == []
  {}

  lemma CellsSame(a: octets, b: octets)
    requires Cells(a) == Cells(b)
    ensures a == b
  {
    assert forall i :: 0 <= i < |a| ==> Cells(a)[i] == Octet(a[i]) && Cells(b)[i] == Octet(b[i]);
  }
}
