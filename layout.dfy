/** A frame is a fixed sequence of fields, each read from the cursor in
    turn; a field's width is the number of bytes its read takes. A read
    that does not fit throws before moving the cursor, and the throw ends
    the whole decode, so the cursor keeps whatever the earlier reads
    consumed. */
module Layout {

  /** Total width of a layout: the bytes a complete frame occupies. */
  function Sum(widths: seq<nat>): nat
  {
    if widths == [] then 0 else widths[0] + Sum(widths[1..])
  }

  /** How far the cursor has moved when the decode of `widths` stops,
      given `remaining` bytes before the limit: the widths of the fields
      read before the first one that did not fit. */
  function Consumed(widths: seq<nat>, remaining: nat): nat
  {
    if widths == [] || remaining < widths[0] then 0
    else widths[0] + Consumed(widths[1..], remaining - widths[0])
  }

  /** With enough bytes, every field is read: the cursor moves by the
      frame's full width. */
  lemma {:induction false} ConsumedWhole(widths: seq<nat>, remaining: nat)
    requires Sum(widths) <= remaining
    ensures Consumed(widths, remaining) == Sum(widths)
  {
    if widths != [] {
      ConsumedWhole(widths[1..], remaining - widths[0]);
    }
  }

  /** With too few bytes, the decode stops short of the frame's width and
      never moves the cursor past the limit. */
  lemma {:induction false} ConsumedShort(widths: seq<nat>, remaining: nat)
    requires remaining < Sum(widths)
    ensures Consumed(widths, remaining) < Sum(widths)
    ensures Consumed(widths, remaining) <= remaining
  {
    if remaining >= widths[0] {
      ConsumedShort(widths[1..], remaining - widths[0]);
    }
  }

  /** Decoding a layout that extends another: the prefix is decoded
      first, and the extension is only reached when the prefix fit. */
  lemma {:induction false} ConsumedAppend(prefix: seq<nat>, tail: seq<nat>, remaining: nat)
    ensures Consumed(prefix + tail, remaining) ==
      if remaining < Sum(prefix) then Consumed(prefix, remaining)
      else Sum(prefix) + Consumed(tail, remaining - Sum(prefix))
  {
    if prefix == [] {
      assert prefix + tail == tail;
    } else {
      assert (prefix + tail)[1..] == prefix[1..] + tail;
      if remaining >= prefix[0] {
        ConsumedAppend(prefix[1..], tail, remaining - prefix[0]);
      }
    }
  }

  /** The width of a layout that extends another is the sum of the two. */
  lemma {:induction false} SumAppend(prefix: seq<nat>, tail: seq<nat>)
    ensures Sum(prefix + tail) == Sum(prefix) + Sum(tail)
  {
    if prefix == [] {
      assert prefix + tail == tail;
    } else {
      assert (prefix + tail)[1..] == prefix[1..] + tail;
      SumAppend(prefix[1..], tail);
    }
  }
}
