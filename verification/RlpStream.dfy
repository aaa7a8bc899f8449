/** The append-only encoder that transactions are written to: a buffer, and the list being filled. */
module RlpStream {
  import opened Outcomes
  import opened Numbers
  import opened Rlp

  /** A list whose header is not known yet. One byte is reserved for it just before `position`. */
  datatype ListInfo = ListInfo(position: nat, current: nat, max: nat)

  class Stream {
    var buffer: bytes
    var unfinished: Option<ListInfo>

    /** The items written to the open list, and everything written before it. */
    ghost var items: seq<Item>
    ghost var before: bytes

    ghost predicate Valid()
      reads this
    {
      match unfinished
      case None => buffer == before
      case Some(l) =>
        && l.position == |before| + 1
        && l.current == |items| < l.max
        && buffer == before + [0] + Payload(items)
    }

    constructor ()
      ensures Valid() && unfinished == None && buffer == []
    {
      buffer, unfinished := [], None;
      items, before := [], [];
    }

    /** Start a list that will hold `max` items. */
    method BeginList(max: nat)
      requires Valid() && unfinished == None && max > 0
      modifies this
      ensures Valid() && before == old(buffer) && items == [] && Payload(items) == []
      ensures unfinished.Some? && unfinished.value.max == max
    {
      before, items := buffer, [];
      buffer := buffer + [0];
      unfinished := Some(ListInfo(|buffer|, 0, max));
    }

    /** Write the header of the list whose payload starts at `position` and runs to the end of the
        buffer, over the byte that was reserved for it. */
    method InsertListPayload(position: nat)
      requires 1 <= position <= |buffer| && |buffer| - position < U64_LIMIT
      modifies this`buffer
      ensures buffer == old(buffer[..position - 1] + Header(|buffer| - position, 0xc0) + buffer[position..])
    {
      buffer := buffer[..position - 1] + Header(|buffer| - position, 0xc0) + buffer[position..];
    }

    /** Append one data item to the open list; the item that fills the list closes it. */
    method Append(item: Item)
      requires Valid() && unfinished.Some?
      requires |Payload(items)| + |item| + 9 < U64_LIMIT
      modifies this
      ensures Valid() && items == old(items) + [item]
      ensures |Payload(items)| <= old(|Payload(items)|) + |item| + 9
      ensures old(|items| + 1 < unfinished.value.max) ==>
                before == old(before) && unfinished.Some? && unfinished.value.max == old(unfinished.value.max)
      ensures old(|items| + 1 == unfinished.value.max) ==>
                unfinished == None && before == old(before) + EncodeList(items)
    {
      hide EncodeData, Header, Payload;
      PayloadAppend(items, item);
      buffer := buffer + EncodeData(item);
      items := items + [item];
      assert buffer == before + [0] + Payload(items);
      var l := unfinished.value.(current := unfinished.value.current + 1);
      if l.current == l.max {
        assert buffer[..|before|] == before && buffer[|before| + 1..] == Payload(items);
        unfinished := None;
        InsertListPayload(l.position);
        before := before + EncodeList(items);
        assert buffer == before;
      } else {
        unfinished := Some(l);
      }
    }
  }
}
