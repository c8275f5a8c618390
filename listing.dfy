/** The loop every fetcher runs over the entries of one page: each entry
    yields a show, is skipped, or raises, and an exception ends the
    generator. Some fetchers carry a variable (`start_date`, the Belgrade's
    panel) from one entry to the next; that is the state `S`. */
module Listing {
  import opened Wrappers
  import opened Shows

  /** The shows yielded, the exception that ended the loop if any, and
      the carried state after the last entry. */
  datatype Outcome<S> = Outcome(shows: seq<Show>, fault: Option<Fault>, state: S)

  /** `shows` yielded before the loop went on as `o`. */
  function Then<S>(shows: seq<Show>, o: Outcome<S>): (r: Outcome<S>)
    ensures |r.shows| == |shows| + |o.shows| && r.shows[..|shows|] == shows && r.shows[|shows|..] == o.shows
    ensures r.fault == o.fault && r.state == o.state
  {
    Outcome(shows + o.shows, o.fault, o.state)
  }

  /** The loop body of a fetcher that carries nothing between entries. */
  function Stateless<E>(entry: E -> Step): ((), E) -> ((), Step)
  {
    (u: (), e: E) => (u, entry(e))
  }

  /** What the loop yields over `entries`, in document order, stopping at
      the first exception. */
  function Drain<S, E>(step: (S, E) -> (S, Step), s: S, entries: seq<E>): (o: Outcome<S>)
    ensures |o.shows| <= |entries|
    decreases |entries|
  {
    if entries == [] then Outcome([], None, s)
    else
      var next := step(s, entries[0]);
      match next.1
      case Halt(f) => Outcome([], Some(f), s)
      case Pass => Drain(step, next.0, entries[1..])
      case Emit(show) => Then([show], Drain(step, next.0, entries[1..]))
  }

  /** The loop over two runs of entries is the loop over the first, then,
      unless it raised, the loop over the second from where it left off:
      shows come out in document order. */
  lemma {:induction false} DrainConcat<S, E>(step: (S, E) -> (S, Step), s: S, a: seq<E>, b: seq<E>)
    ensures var o := Drain(step, s, a);
            Drain(step, s, a + b) == if o.fault.Some? then o else Then(o.shows, Drain(step, o.state, b))
    decreases |a|
  {
    if a == [] {
      assert a + b == b;
    } else {
      assert (a + b)[0] == a[0] && (a + b)[1..] == a[1..] + b;
      var next := step(s, a[0]);
      DrainConcat(step, next.0, a[1..], b);
      match next.1
      case Halt(f) =>
      case Pass =>
      case Emit(show) =>
        var o := Drain(step, next.0, a[1..]);
        if o.fault.None? {
          assert [show] + (o.shows + Drain(step, o.state, b).shows) == ([show] + o.shows) + Drain(step, o.state, b).shows;
        }
    }
  }

  /** Two entries that both yield a show. */
  lemma DrainTwo<S, E>(step: (S, E) -> (S, Step), s: S, x: E, y: E)
    requires step(s, x).1.Emit? && step(step(s, x).0, y).1.Emit?
    ensures var one := step(s, x); var two := step(one.0, y);
            Drain(step, s, [x, y]) == Outcome([one.1.show, two.1.show], None, two.0)
  {
    var one := step(s, x);
    var two := step(one.0, y);
    assert [y][1..] == [];
    assert Drain(step, one.0, [y]) == Then([two.1.show], Drain(step, two.0, []));
    assert [x, y][0] == x && [x, y][1..] == [y];
    assert Drain(step, s, [x, y]) == Then([one.1.show], Drain(step, one.0, [y]));
  }

  /** `entries` without those `skip` picks. */
  function Kept<E>(entries: seq<E>, skip: E -> bool): (r: seq<E>)
    ensures |r| <= |entries|
    ensures forall i :: 0 <= i < |r| ==> !skip(r[i]) && r[i] in entries
  {
    if entries == [] then []
    else if skip(entries[0]) then Kept(entries[1..], skip)
    else [entries[0]] + Kept(entries[1..], skip)
  }

  /** Entries the loop body skips without touching the carried state
      (a `continue`) make no difference to what the loop yields. */
  lemma {:induction false} DrainSkips<S, E>(step: (S, E) -> (S, Step), s: S, entries: seq<E>, skip: E -> bool)
    requires forall t: S, e: E :: skip(e) ==> step(t, e) == (t, Pass)
    ensures Drain(step, s, entries) == Drain(step, s, Kept(entries, skip))
    decreases |entries|
  {
    if entries != [] {
      DrainSkips(step, step(s, entries[0]).0, entries[1..], skip);
      if skip(entries[0]) {
        DrainSkips(step, s, entries[1..], skip);
      } else {
        var k := Kept(entries, skip);
        assert k[0] == entries[0] && k[1..] == Kept(entries[1..], skip);
      }
    }
  }

  /** Every show the loop yields satisfies `good` when every step that
      yields one does, whatever the state. */
  lemma {:induction false} DrainYields<S, E>(step: (S, E) -> (S, Step), s: S, entries: seq<E>, good: Show -> bool)
    requires forall t: S, e: E :: step(t, e).1.Emit? ==> good(step(t, e).1.show)
    ensures forall i :: 0 <= i < |Drain(step, s, entries).shows| ==> good(Drain(step, s, entries).shows[i])
    decreases |entries|
  {
    if entries != [] {
      DrainYields(step, step(s, entries[0]).0, entries[1..], good);
    }
  }

  /** The loop itself: entries one at a time, the carried state updated
      as the loop body goes, until the entries run out or one raises. */
  method DrainItems<S, E>(step: (S, E) -> (S, Step), s: S, entries: seq<E>)
    returns (shows: seq<Show>, fault: Option<Fault>, state: S)
    ensures Outcome(shows, fault, state) == Drain(step, s, entries)
  {
    shows, fault, state := [], None, s;
    var i := 0;
    while i < |entries| && fault.None?
      invariant 0 <= i <= |entries|
      invariant fault.None? ==> Drain(step, s, entries) == Then(shows, Drain(step, state, entries[i..]))
      invariant fault.Some? ==> Drain(step, s, entries) == Outcome(shows, fault, state)
      decreases |entries| - i
    {
      assert entries[i..][0] == entries[i] && entries[i..][1..] == entries[i + 1..];
      var next := step(state, entries[i]);
      match next.1 {
        case Halt(f) =>
          fault := Some(f);
        case Pass =>
          state := next.0;
        case Emit(show) =>
          assert shows + ([show] + Drain(step, next.0, entries[i + 1..]).shows)
                 == (shows + [show]) + Drain(step, next.0, entries[i + 1..]).shows;
          shows := shows + [show];
          state := next.0;
      }
      i := i + 1;
    }
    if fault.None? {
      assert entries[i..] == [];
    }
  }
}
