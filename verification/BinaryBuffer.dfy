/** The growing buffer under both parsers (srcs/BinaryBuffer.cpp). */
module BinaryBuffers {
  import opened Octets

  /** std::memcmp over the first `n` octets: the sign of the first difference. */
  function MemCmp(a: octets, b: octets, n: nat): (r: int)
    requires n <= |a| && n <= |b|
    ensures r == 0 <==> a[..n] == b[..n]
    ensures r < 0 <==> exists i :: 0 <= i < n && a[..i] == b[..i] && a[i] < b[i]
  {
    if n == 0 then 0
    else
      var r := MemCmp(a, b, n - 1);
      assert a[..n] == a[..n - 1] + [a[n - 1]] && b[..n] == b[..n - 1] + [b[n - 1]];
      if r != 0 then r else a[n - 1] as int - b[n - 1] as int
  }

  class BinaryBuffer {
    var data: octets

    constructor ()
      ensures data == ""
    {
      data := "";
    }

    method Append(other: octets)
      modifies this
      ensures data == old(data) + other
    {
      data := data + other;
    }

    method Clear()
      modifies this
      ensures data == ""
    {
      data := "";
    }

    /** Erases up to `len` octets from `pos` on. */
    method Erase(pos: nat, len: nat)
      modifies this
      ensures pos >= |old(data)| ==> data == old(data)
      ensures pos < |old(data)| <= pos + len ==> data == old(data)[..pos]
      ensures pos + len < |old(data)| ==> data == old(data)[..pos] + old(data)[pos + len..]
    {
      if pos >= |data| {
        return;
      }
      var end := if pos + len <= |data| then pos + len else |data|;
      data := data[..pos] + data[end..];
    }

    function Substr(pos: nat, len: nat): octets
      reads this
    {
      if pos >= |data| then ""
      else if pos + len <= |data| then data[pos..pos + len]
      else data[pos..]
    }

    /** The sign of the first difference within the common prefix only. */
    function Compare(other: octets): (r: int)
      reads this
      ensures r == 0 <==> Agrees(data, other)
    {
      MemCmp(data, other, if |other| <= |data| then |other| else |data|)
    }

    /** The last occurrence of `other` that starts at `pos` or before. */
    method RFind(other: octets, pos: nat) returns (r: int)
      ensures r == NPOS || (0 <= r <= pos && OccursAt(data, other, r))
      ensures other != "" ==> forall j: nat :: r < j <= pos ==> !OccursAt(data, other, j)
    {
      if other == "" || |other| > |data| {
        return NPOS;
      }
      var i := (if pos >= |data| then |data| - 1 else pos) + 1;
      while i > 0
        invariant 0 <= i <= pos + 1
        invariant forall j: nat :: i <= j <= pos ==> !OccursAt(data, other, j)
      {
        i := i - 1;
        if |other| <= |data| - i && data[i..i + |other|] == other {
          return i;
        }
      }
      r := NPOS;
    }
  }
}
