/** A view of part of a fixed block of memory (its bounding box) that can grow, in
    place, into the free space before and after it: core123::padded_uchar_span. */
module Spans {

  class Span<T(0)> {
    const box: array<T>
    var off: nat
    var len: nat

    ghost predicate Valid()
      reads this
    {
      off + len <= box.Length
    }

    ghost function Contents(): (s: seq<T>)
      requires Valid()
      reads this, box
    {
      box[off..off + len]
    }

    function AvailFront(): nat
      reads this
    {
      off
    }

    function AvailBack(): nat
      requires Valid()
      reads this
    {
      box.Length - off - len
    }

    /** Storage for `size` elements of which none is in use yet. */
    constructor (size: nat, leader: nat)
      requires leader <= size
      ensures Valid() && fresh(box) && box.Length == size
      ensures off == leader && len == 0 && Contents() == []
    {
      box := new T[size];
      off, len := leader, 0;
    }

    /** Puts `more` in front; refused, with nothing changed, when it does not fit. */
    method Prepend(more: seq<T>) returns (ok: bool)
      requires Valid()
      modifies this, box
      ensures Valid() && ok == (|more| <= old(off))
      ensures ok ==> Contents() == more + old(Contents()) && off == old(off) - |more|
      ensures ok ==> off + len == old(off + len)
      ensures !ok ==> off == old(off) && len == old(len) && box[..] == old(box[..])
      ensures forall k :: 0 <= k < box.Length && !(off <= k < old(off)) ==> box[k] == old(box[k])
    {
      if |more| > off {
        return false;
      }
      forall k | 0 <= k < |more| {
        box[off - |more| + k] := more[k];
      }
      assert box[off..off + len] == old(box[off..off + len]);
      off, len := off - |more|, len + |more|;
      assert box[off..off + |more|] == more;
      return true;
    }

    /** Puts `more` behind; refused, with nothing changed, when it does not fit. */
    method Append(more: seq<T>) returns (ok: bool)
      requires Valid()
      modifies this, box
      ensures Valid() && ok == (|more| <= old(AvailBack())) && off == old(off)
      ensures ok ==> Contents() == old(Contents()) + more && len == old(len) + |more|
      ensures !ok ==> len == old(len) && box[..] == old(box[..])
      ensures forall k :: 0 <= k < box.Length && !(old(off + len) <= k < off + len) ==> box[k] == old(box[k])
    {
      if |more| > box.Length - off - len {
        return false;
      }
      forall k | 0 <= k < |more| {
        box[off + len + k] := more[k];
      }
      assert box[off..off + len] == old(box[off..off + len]);
      assert box[off + len..off + len + |more|] == more;
      len := len + |more|;
      return true;
    }
  }
}
