/** `Event<Args>` (CruUI/Event.h): an ordered list of handler registrations.
    A handler is identified by its token, the `shared_ptr` that `AddHandler`
    returns; what a handler does when called is outside the model, so raising
    the event yields the calls it makes, in order. */
module Events {

  /** The identity of a registered handler (the shared pointer). */
  type Token = nat

  /** One handler invocation made by `Raise`. */
  datatype Call<A> = Call(handler: Token, args: A)

  /** The list after `std::find` + `erase`: the first registration equal to
      `t` is dropped; nothing happens when there is none. */
  function RemoveFirst(s: seq<Token>, t: Token): (r: seq<Token>)
    ensures |r| == if t in s then |s| - 1 else |s|
    ensures forall x | x in r :: x in s
  {
    if s == [] then []
    else if s[0] == t then s[1..]
    else [s[0]] + RemoveFirst(s[1..], t)
  }

  /** Index of the first registration equal to `t`, or `|s|`. */
  function FirstIndex(s: seq<Token>, t: Token): (i: nat)
    ensures i <= |s|
    ensures forall j :: 0 <= j < i ==> s[j] != t
    ensures i < |s| ==> s[i] == t
  {
    if s == [] then 0 else if s[0] == t then 0 else 1 + FirstIndex(s[1..], t)
  }

  /** `RemoveFirst` erases exactly the entry at the first match and keeps
      the order of all others. */
  lemma RemoveFirstIsErase(s: seq<Token>, t: Token)
    ensures var i := FirstIndex(s, t);
      RemoveFirst(s, t) == if i == |s| then s else s[..i] + s[i + 1..]
  {
    var i := FirstIndex(s, t);
    if i < |s| {
      RemoveAt(s, t, i);
    } else {
      RemoveAbsent(s, t);
    }
  }

  /** With the first match at `i`, removal erases entry `i`. */
  lemma {:induction false} RemoveAt(s: seq<Token>, t: Token, i: nat)
    requires i < |s| && s[i] == t && forall j | 0 <= j < i :: s[j] != t
    ensures RemoveFirst(s, t) == s[..i] + s[i + 1..]
  {
    if i > 0 {
      RemoveAt(s[1..], t, i - 1);
      EraseCons(s, i - 1);
    }
  }

  /** Erasing entry `j + 1` of `s` is erasing entry `j` of its tail, behind
      the head. */
  lemma EraseCons(s: seq<Token>, j: nat)
    requires j + 1 < |s|
    ensures [s[0]] + (s[1..][..j] + s[1..][j + 1..]) == s[..j + 1] + s[j + 2..]
  {
    assert s[..j + 1] == [s[0]] + s[1..][..j];
  }

  /** Removing an unregistered token leaves the list unchanged. */
  lemma {:induction false} RemoveAbsent(s: seq<Token>, t: Token)
    requires t !in s
    ensures RemoveFirst(s, t) == s
  {
    if s != [] {
      RemoveAbsent(s[1..], t);
      assert [s[0]] + s[1..] == s;
    }
  }

  /** Removal drops exactly one registration of `t` when there is one. */
  lemma {:induction false} RemoveFirstMultiset(s: seq<Token>, t: Token)
    ensures multiset(RemoveFirst(s, t)) == multiset(s) - multiset{t}
  {
    if s != [] {
      var rest := s[1..];
      assert s == [s[0]] + rest;
      if s[0] != t {
        RemoveFirstMultiset(rest, t);
        assert RemoveFirst(s, t) == [s[0]] + RemoveFirst(rest, t);
        assert multiset(RemoveFirst(s, t)) == multiset{s[0]} + (multiset(rest) - multiset{t});
      }
    }
  }

  /** Registering a fresh token and removing it again restores the list. */
  lemma {:induction false} AddThenRemove(s: seq<Token>, t: Token)
    requires t !in s
    ensures RemoveFirst(s + [t], t) == s
  {
    RemoveFirstIsErase(s + [t], t);
    FirstIndexUnique(s + [t], t, |s|);
    assert (s + [t])[..|s|] == s;
  }

  class Event<A> {
    /** The registrations, in order; duplicates are allowed. */
    var handlers: seq<Token>
    /** Every token handed out so far is below this one (the allocator of
        fresh handler objects). */
    var nextToken: Token

    ghost predicate Valid()
      reads this
    {
      forall i :: 0 <= i < |handlers| ==> handlers[i] < nextToken
    }

    constructor ()
      ensures Valid() && handlers == []
    {
      handlers := [];
      nextToken := 0;
    }

    /** `AddHandler(const EventHandler&)`: wraps the handler in a new
        pointer, appends it and returns it. */
    method AddHandler() returns (t: Token)
      requires Valid()
      modifies this
      ensures Valid()
      ensures t !in old(handlers)
      ensures handlers == old(handlers) + [t]
    {
      t := nextToken;
      nextToken := nextToken + 1;
      handlers := handlers + [t];
    }

    /** `AddHandler(EventHandlerPtr)`: appends, even when `t` is already
        registered. */
    method AddHandlerToken(t: Token)
      requires Valid()
      modifies this
      ensures Valid()
      ensures handlers == old(handlers) + [t]
    {
      handlers := handlers + [t];
      if t >= nextToken {
        nextToken := t + 1;
      }
    }

    /** `RemoveHandler(handler)`: finds the first equal registration and
        erases it. */
    method RemoveHandler(t: Token)
      requires Valid()
      modifies this
      ensures Valid() && nextToken == old(nextToken)
      ensures handlers == RemoveFirst(old(handlers), t)
    {
      var i := 0;
      while i < |handlers| && handlers[i] != t
        invariant 0 <= i <= |handlers|
        invariant forall j :: 0 <= j < i ==> handlers[j] != t
      {
        i := i + 1;
      }
      assert i == FirstIndex(handlers, t) by {
        FirstIndexUnique(handlers, t, i);
      }
      RemoveFirstIsErase(handlers, t);
      if i < |handlers| {
        handlers := handlers[..i] + handlers[i + 1..];
      }
    }

    /** `Raise(args)`: calls every registered handler once per
        registration, in order, with the same args. Handlers that change the
        registration list while it is walked are excluded (no `modifies`). */
    method Raise(args: A) returns (calls: seq<Call<A>>)
      ensures |calls| == |handlers|
      ensures forall i :: 0 <= i < |calls| ==> calls[i] == Call(handlers[i], args)
    {
      calls := [];
      for i := 0 to |handlers|
        invariant |calls| == i
        invariant forall j :: 0 <= j < i ==> calls[j] == Call(handlers[j], args)
      {
        calls := calls + [Call(handlers[i], args)];
      }
    }
  }

  lemma FirstIndexUnique(s: seq<Token>, t: Token, i: nat)
    requires i <= |s|
    requires forall j :: 0 <= j < i ==> s[j] != t
    requires i < |s| ==> s[i] == t
    ensures i == FirstIndex(s, t)
  {
  }
}
