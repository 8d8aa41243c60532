/**
  Iterating over sequences, in memory or serialised: the entries seen are the
  fields of the value, and a damaged buffer is reported at its end.
 */
module Iterators {
  import opened Subfield
  import opened Argdata

  /** How an iteration stands: on an entry, past the last one, or stopped by something unreadable. */
  datatype Place = At | End | Invalid

  // ---------- Sequences ----------

  class SeqIterator {
    var fromBuffer: bool
    var buffer: seq<Byte>
    var convert: nat -> CInt
    var entry: Node
    var items: seq<Node>
    var place: Place

    /** The values of the current entry and of all after it. */
    ghost function Ahead(): seq<Value>
      reads this
    {
      if place != At then []
      else if fromBuffer then [ViewOf(entry)] + ViewFields(buffer, convert)
      else ViewItems(items)
    }

    /** Whether the iteration will stop at something unreadable. */
    ghost predicate Damaged()
      reads this
    {
      place == Invalid || (place == At && fromBuffer && TailOf(buffer) != [])
    }

    ghost predicate Valid()
      reads this
    {
      place == At && !fromBuffer ==> |items| > 0
    }

    /** Positions on the first entry; anything that is not a sequence has none and is invalid. */
    constructor (ad: Node)
      ensures Valid()
      ensures (ad.Seq? || (ad.Buffer? && |ad.bytes| > 0 && ad.bytes[0] == TYPE_SEQ)) ==>
        Ahead() == ViewOf(ad).fields && (Damaged() <==> ViewOf(ad).tail != [])
      ensures !(ad.Seq? || (ad.Buffer? && |ad.bytes| > 0 && ad.bytes[0] == TYPE_SEQ)) ==> Ahead() == [] && Damaged()
    {
      fromBuffer, buffer, items, place, entry := false, [], [], Invalid, Binary([]);
      convert := (i: nat) => -1;
      new;
      match ad {
        case Buffer(bytes, conv) =>
          if |bytes| > 0 && bytes[0] == TYPE_SEQ {
            fromBuffer, buffer, convert, place := true, bytes[1..], conv, At;
            Load();
          }
        case Seq(entries) =>
          items := entries;
          place := if |entries| == 0 then End else At;
        case Binary(_) =>
        case Map(_) =>
        case Str(_) =>
      }
    }

    /** The next entry of a buffer. */
    method Load()
      requires fromBuffer && place == At
      modifies this
      ensures Valid() && Ahead() == ViewFields(old(buffer), old(convert))
      ensures Damaged() <==> TailOf(old(buffer)) != []
    {
      if |buffer| == 0 {
        fromBuffer, items, place := false, [], End;
      } else {
        var ok, start, length := ParseSubfield(buffer);
        if ok {
          entry := Buffer(buffer[start..start + length], convert);
          buffer := buffer[start + length..];
        } else {
          fromBuffer, items, place := false, [], Invalid;
        }
      }
    }

    /** Moves to the next entry, or past the last. */
    method Next()
      requires Valid() && place == At
      modifies this
      ensures Valid() && Ahead() == old(Ahead())[1..] && Damaged() == old(Damaged())
    {
      if fromBuffer {
        assert Ahead()[1..] == ViewFields(buffer, convert);
        Load();
      } else {
        assert ViewItems(items)[1..] == ViewItems(items[1..]);
        items := items[1..];
        if |items| == 0 {
          place := End;
        }
      }
    }

    lemma Finished()
      requires place != At
      ensures Ahead() == [] && (Damaged() <==> place == Invalid)
    {
    }

    method Get() returns (ad: Node)
      requires Valid() && place == At
      ensures |Ahead()| > 0 && ViewOf(ad) == Ahead()[0]
    {
      ad := if fromBuffer then entry else items[0];
    }
  }

  /** Visiting a sequence from its first entry to its end finds exactly its fields. */
  method Entries(ad: Node) returns (entries: seq<Node>, complete: bool)
    requires ViewOf(ad).Fields? && ViewOf(ad).tag == TYPE_SEQ
    ensures ViewItems(entries) == ViewOf(ad).fields && (complete <==> ViewOf(ad).tail == [])
  {
    hide ViewOf, View, ViewFields, TailOf, ViewItems, SeqIterator.Ahead, SeqIterator.Damaged;
    SequenceNodes(ad);
    var it := new SeqIterator(ad);
    entries := [];
    ghost var all := ViewOf(ad).fields;
    NoItemsViewed();
    assert [] + all == all;
    while it.place == At
      invariant fresh(it) && it.Valid() && ViewItems(entries) + it.Ahead() == all
      invariant it.Damaged() <==> ViewOf(ad).tail != []
      decreases |it.Ahead()|, it.place == At
    {
      var entry := it.Get();
      ViewItemsAppend(entries, entry);
      MoveOne(ViewItems(entries), it.Ahead());
      entries := entries + [entry];
      it.Next();
    }
    it.Finished();
    complete := it.place == End;
  }

  lemma NoItemsViewed()
    ensures ViewItems([]) == []
  {
  }

  lemma MoveOne(a: seq<Value>, b: seq<Value>)
    requires |b| > 0
    ensures (a + [b[0]]) + b[1..] == a + b
  {
  }

  lemma SequenceNodes(ad: Node)
    requires ViewOf(ad).Fields? && ViewOf(ad).tag == TYPE_SEQ
    ensures ad.Seq? || (ad.Buffer? && |ad.bytes| > 0 && ad.bytes[0] == TYPE_SEQ)
  {
  }

  lemma {:induction false} ViewItemsAppend(items: seq<Node>, ad: Node)
    ensures ViewItems(items + [ad]) == ViewItems(items) + [ViewOf(ad)]
  {
    hide ViewOf;
    if |items| == 0 {
      assert items + [ad] == [ad];
      assert ViewItems([ad]) == [ViewOf(ad)] + ViewItems([]);
    } else {
      ViewItemsAppend(items[1..], ad);
      assert (items + [ad])[1..] == items[1..] + [ad];
    }
  }
}
