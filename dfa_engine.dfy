/**
  The automaton engine: a class whose fields the operations update in
  place.  Every method is proved to leave the structural fields equal to
  the corresponding function of module DfaSpec applied to their old
  values, and simulation moves only `current`.
*/
module DfaEngine {
  import opened Wrappers
  import opened DfaSpec
  import SortedStrings

  /** The structural snapshot `to_dict` returns; it never holds the cursor. */
  datatype Snapshot = Snapshot(
    states: seq<State>,
    alphabet: seq<Symbol>,
    delta: Table,
    start: Option<State>,
    accept: seq<State>)

  class Dfa {
    var states: set<State>
    var alphabet: set<Symbol>
    var delta: Table
    var start: Option<State>
    var accept: set<State>
    var current: Option<State>

    /** The structural definition held by the fields, without the cursor. */
    function Definition(): Automaton
      reads this
    {
      Automaton(states, alphabet, delta, start, accept)
    }

    /**
      `DFA(states, alphabet, delta, start, accept, make_total)`, with an
      absent collection passed as the empty set and an absent start as None.
    */
    constructor (states0: set<State>, alphabet0: set<Symbol>, delta0: Table,
                 start0: Option<State>, accept0: set<State>, makeTotal: bool := true)
      ensures Definition() == Build(states0, alphabet0, delta0, start0, accept0, makeTotal)
      ensures current == start0
    {
      states := states0;
      alphabet := alphabet0;
      delta := map[];
      start := start0;
      accept := accept0;
      current := None;
      new;
      CopyRows(delta0);
      AddTargets();
      TargetsFromAll(delta);
      ghost var d := Automaton(states0 + delta0.Keys + Targets(delta0), alphabet0, delta0, start0, accept0);
      assert Definition() == d;
      if makeTotal {
        MakeTotal();
      }
      assert Definition() == Build(states0, alphabet0, delta0, start0, accept0, makeTotal);
      Reset();
    }

    /** Copy the caller's rows; each source becomes a state. */
    method CopyRows(delta0: Table)
      requires delta == map[]
      modifies this`delta, this`states
      ensures delta == delta0
      ensures states == old(states) + delta0.Keys
    {
      var sources := delta0.Keys;
      while sources != {}
        invariant sources <= delta0.Keys
        invariant delta.Keys == delta0.Keys - sources
        invariant forall s :: s in delta ==> delta[s] == delta0[s]
        invariant states == old(states) + (delta0.Keys - sources)
        decreases sources
      {
        var s :| s in sources;
        delta := delta[s := delta0[s]];
        states := states + {s};
        sources := sources - {s};
      }
      assert delta == delta0;
    }

    /** Every target of every row becomes a state. */
    method AddTargets()
      modifies this`states
      ensures states == old(states) + TargetsFrom(delta, delta.Keys)
    {
      var rows := delta.Keys;
      while rows != {}
        invariant rows <= delta.Keys
        invariant states == old(states) + TargetsFrom(delta, delta.Keys - rows)
        decreases rows
      {
        var s :| s in rows;
        TargetsFromAdd(delta, delta.Keys - rows, s);
        states := states + delta[s].Values;
        assert delta.Keys - (rows - {s}) == (delta.Keys - rows) + {s};
        rows := rows - {s};
      }
    }

    /** `from_components`: the constructor with completion switched on. */
    static method FromComponents(states0: set<State>, alphabet0: set<Symbol>, delta0: Table,
                                 start0: Option<State>, accept0: set<State>) returns (dfa: Dfa)
      ensures fresh(dfa)
      ensures dfa.Definition() == Build(states0, alphabet0, delta0, start0, accept0, true)
      ensures Total(dfa.Definition()) && Closed(dfa.Definition())
      ensures dfa.current == start0
    {
      dfa := new Dfa(states0, alphabet0, delta0, start0, accept0, true);
    }

    // --- construction helpers ---------------------------------------------

    /** `add_state(name, is_accept)` */
    method AddState(name: State, isAccept: bool := false)
      modifies this
      ensures Definition() == WithState(old(Definition()), name, isAccept)
      ensures current == old(current)
    {
      states := states + {name};
      if isAccept {
        accept := accept + {name};
      }
    }

    /** `add_transition(src, symbol, tgt)`; completion is not re-run. */
    method AddTransition(src: State, symbol: Symbol, tgt: State)
      modifies this
      ensures Definition() == WithTransition(old(Definition()), src, symbol, tgt)
      ensures current == old(current)
    {
      states := states + {src};
      states := states + {tgt};
      alphabet := alphabet + {symbol};
      delta := delta[src := RowOf(delta, src)[symbol := tgt]];
    }

    /** `_make_total` */
    method MakeTotal()
      modifies this
      ensures Definition() == Complete(old(Definition()))
      ensures current == old(current)
    {
      AddMissingRows();
      RowsKeepGaps(old(Definition()), delta);
      if alphabet == {} {
        return;
      }
      var needDead := NeedsDeadState();
      if needDead {
        AddDeadState();
      }
    }

    /** The first pass of `_make_total`: every state gets a row, empty where it had none. */
    method AddMissingRows()
      modifies this`delta
      ensures delta == WithRows(old(delta), states)
    {
      var todo := states;
      while todo != {}
        invariant todo <= states
        invariant delta == WithRows(old(delta), states - todo)
        decreases todo
      {
        var s :| s in todo;
        if s !in delta {
          delta := delta[s := map[]];
        }
        assert states - (todo - {s}) == (states - todo) + {s};
        todo := todo - {s};
      }
      assert states - todo == states;
    }

    /**
      The last pass of `_make_total`: `Dead` joins the states, loops to
      itself, and takes every missing pair of every state.
    */
    method AddDeadState()
      requires states <= delta.Keys
      modifies this`states, this`delta
      ensures states == old(states) + {Dead}
      ensures delta == FillTable(old(delta), states, alphabet, Dead)
    {
      states := states + {Dead};
      // the dead state loops to itself on every symbol
      if Dead !in delta {
        delta := delta[Dead := map[]];
      }
      FillRowToDead(Dead);
      ghost var base := delta;
      // fill missing transitions to the dead state
      FillRowsToDead();
      FillTableAfterDeadRow(old(delta), states, alphabet, base, delta);
    }

    /** `for s in list(states): for a in alphabet: delta.setdefault(s, {}).setdefault(a, dead)` */
    method FillRowsToDead()
      requires states <= delta.Keys
      modifies this`delta
      ensures delta.Keys == old(delta).Keys
      ensures forall s :: s in states ==> delta[s] == FillRow(old(delta)[s], alphabet, Dead)
      ensures forall s :: s in old(delta) && s !in states ==> delta[s] == old(delta)[s]
    {
      var pending := states;
      while pending != {}
        invariant pending <= states
        invariant delta.Keys == old(delta).Keys
        invariant forall s :: s in states - pending ==> delta[s] == FillRow(old(delta)[s], alphabet, Dead)
        invariant forall s :: s in old(delta) && s !in states - pending ==> delta[s] == old(delta)[s]
        decreases pending
      {
        var s :| s in pending;
        assert RowOf(delta, s) == old(delta)[s];
        FillRowToDead(s);
        assert states - (pending - {s}) == (states - pending) + {s};
        pending := pending - {s};
      }
      assert states - pending == states;
    }

    /** The read-only scan of `_make_total`: is some (state, symbol) pair missing? */
    method NeedsDeadState() returns (needDead: bool)
      ensures needDead == HasGap(states, alphabet, delta)
    {
      needDead := false;
      var todo := states;
      while todo != {} && !needDead
        invariant todo <= states
        invariant needDead ==> HasGap(states, alphabet, delta)
        invariant !needDead ==> forall s, a :: s in states - todo && a in alphabet ==> HasEntry(delta, s, a)
        decreases todo
      {
        var s :| s in todo;
        var symbols := alphabet;
        while symbols != {} && !needDead
          invariant symbols <= alphabet
          invariant needDead ==> HasGap(states, alphabet, delta)
          invariant !needDead ==> forall a :: a in alphabet - symbols ==> a in RowOf(delta, s)
          decreases symbols
        {
          var a :| a in symbols;
          if a !in RowOf(delta, s) {
            needDead := true;
          }
          symbols := symbols - {a};
        }
        assert !needDead ==> alphabet - symbols == alphabet;
        assert states - (todo - {s}) == (states - todo) + {s};
        todo := todo - {s};
      }
    }

    /** `for a in alphabet: delta.setdefault(s, {}).setdefault(a, dead)` */
    method FillRowToDead(s: State)
      modifies this`delta
      ensures delta == old(delta)[s := FillRow(RowOf(old(delta), s), alphabet, Dead)]
    {
      var symbols := alphabet;
      var row := RowOf(delta, s);
      while symbols != {}
        invariant symbols <= alphabet
        invariant delta == old(delta)
        invariant row == FillRow(RowOf(old(delta), s), alphabet - symbols, Dead)
        decreases symbols
      {
        var a :| a in symbols;
        if a !in row {
          row := row[a := Dead];
        }
        symbols := symbols - {a};
      }
      assert alphabet - symbols == alphabet;
      delta := delta[s := row];
    }

    // --- simulation -------------------------------------------------------

    /** `reset()` */
    method Reset()
      modifies this`current
      ensures current == start
    {
      current := start;
    }

    /**
      `step(symbol)`: outside the alphabet, or with no cursor, the answer
      is None and the cursor stays; otherwise the cursor follows the table,
      and becomes None where the table has no entry.
    */
    method Step(symbol: Symbol) returns (r: Option<State>)
      modifies this`current
      ensures symbol !in alphabet ==> r == None && current == old(current)
      ensures symbol in alphabet ==> current == Next(delta, old(current), symbol) && r == current
    {
      if symbol !in alphabet {
        return None;
      }
      if current.None? {
        return None;
      }
      current := Lookup(delta, current.value, symbol);
      return current;
    }

    /**
      `run(w)`: resets, then steps through `w`; the cursor is left where
      the first symbol outside the alphabet stopped it.
    */
    method Run(w: seq<Symbol>) returns (r: Option<State>)
      modifies this`current
      ensures r == DfaSpec.Run(Definition(), w)
      ensures current == Fold(delta, start, w[..ValidPrefix(alphabet, w)])
    {
      Reset();
      var i := 0;
      while i < |w|
        invariant 0 <= i <= |w|
        invariant forall j :: 0 <= j < i ==> w[j] in alphabet
        invariant current == Fold(delta, start, w[..i])
      {
        if w[i] !in alphabet {
          assert ValidPrefix(alphabet, w) == i;
          return None;
        }
        var _ := Step(w[i]);
        assert w[..i + 1][..i] == w[..i];
        i := i + 1;
      }
      assert w[..|w|] == w;
      return current;
    }

    /** `accepts(w)` */
    method Accepts(w: seq<Symbol>) returns (v: Verdict)
      modifies this`current
      ensures v == Acceptance(Definition(), w)
      ensures current == Fold(delta, start, w[..ValidPrefix(alphabet, w)])
    {
      var final := Run(w);
      if final.None? {
        return Undefined;
      }
      return if final.value in accept then Accepted else Rejected;
    }

    // --- utilities --------------------------------------------------------

    /** `to_dict()`: sorted states, alphabet and accept, a row per state, and start. */
    function ToDict(): (r: Snapshot)
      reads this
      ensures SortedStrings.Sorted(r.states) && |r.states| == |states|
      ensures forall s :: s in r.states <==> s in states
      ensures SortedStrings.Sorted(r.alphabet) && |r.alphabet| == |alphabet|
      ensures forall a :: a in r.alphabet <==> a in alphabet
      ensures SortedStrings.Sorted(r.accept) && |r.accept| == |accept|
      ensures forall s :: s in r.accept <==> s in accept
      ensures r.delta.Keys == states
      ensures forall s :: s in states ==> r.delta[s] == RowOf(delta, s)
      ensures r.start == start
    {
      Snapshot(SortedStrings.Sort(states), SortedStrings.Sort(alphabet),
               map s | s in states :: RowOf(delta, s), start, SortedStrings.Sort(accept))
    }
  }

  /** The targets of the rows of `delta` whose source is in `sources`. */
  function TargetsFrom(delta: Table, sources: set<State>): set<State>
  {
    set s, a | s in sources && s in delta && a in delta[s] :: delta[s][a]
  }

  lemma TargetsFromAdd(delta: Table, sources: set<State>, s: State)
    requires s in delta
    ensures TargetsFrom(delta, sources + {s}) == TargetsFrom(delta, sources) + delta[s].Values
  {
    var left := TargetsFrom(delta, sources + {s});
    var right := TargetsFrom(delta, sources) + delta[s].Values;
    forall t | t in right
      ensures t in left
    {
      if t in delta[s].Values {
        var a :| a in delta[s] && delta[s][a] == t;
      }
    }
  }

  lemma TargetsFromAll(delta: Table)
    ensures TargetsFrom(delta, delta.Keys) == Targets(delta)
  {
  }

}
