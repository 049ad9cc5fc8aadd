/** The invocation list of a C# event (a multicast delegate), with the
    semantics of `+=` (Delegate.Combine) and `-=` (Delegate.Remove). A
    handler is identified by the object it is bound to. */
module Events {

  type Handlers = seq<object>

  /** `event += h`: appends `h` to the invocation list. */
  function Combine(list: Handlers, h: object): (r: Handlers)
    ensures |r| == |list| + 1 && r[|list|] == h && r[..|list|] == list
  {
    list + [h]
  }

  /** `event -= h`: removes the LAST occurrence of `h`; a list without `h`
      is returned unchanged. */
  function Remove(list: Handlers, h: object): (r: Handlers)
    ensures h !in list ==> r == list
    ensures h in list ==> |r| == |list| - 1
  {
    if list == [] then []
    else if list[|list| - 1] == h then list[..|list| - 1]
    else Remove(list[..|list| - 1], h) + [list[|list| - 1]]
  }

  /** `-=` cuts out the last occurrence of the handler: the handlers before
      and after it keep their order, and none after it is `h`. */
  lemma {:induction false} RemoveCutsLastOccurrence(list: Handlers, h: object) returns (i: nat)
    ensures h in list ==>
      && i < |list| && list[i] == h && h !in list[i + 1..]
      && Remove(list, h) == list[..i] + list[i + 1..]
  {
    if list == [] {
      return 0;
    }
    var init, last := list[..|list| - 1], list[|list| - 1];
    assert list == init + [last];
    if last == h {
      i := |list| - 1;
      assert list[i + 1..] == [];
    } else if h in init {
      i := RemoveCutsLastOccurrence(init, h);
      assert list[..i] == init[..i];
      assert list[i + 1..] == init[i + 1..] + [last];
    } else {
      i := 0;
    }
  }

  /** Unsubscribing a handler that was just subscribed restores the list. */
  lemma RemoveUndoesCombine(list: Handlers, h: object)
    ensures Remove(Combine(list, h), h) == list
  {
    assert Combine(list, h)[..|list|] == list;
  }

  /** `-=` takes away exactly one occurrence of the handler and nothing else. */
  lemma {:induction false} RemoveTakesOneOccurrence(list: Handlers, h: object)
    ensures multiset(Remove(list, h)) == multiset(list) - multiset{h}
  {
    if list != [] {
      var init, last := list[..|list| - 1], list[|list| - 1];
      assert list == init + [last];
      if last != h {
        RemoveTakesOneOccurrence(init, h);
      }
    }
  }
}
