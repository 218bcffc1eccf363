/** The header fetch loop: a height cursor that walks forward over a keyed
    header store, asking the chain source for each height it does not hold yet.
    Every continuation in the fetcher (the skip, the retry after a wait, the
    advance after an insert) re-enters `fetch` with `loop = true`; here that
    continuation is an explicit iteration over a finite sequence of answers
    from the source. */
module Fetcher {
  import opened HeaderStore

  /** What the source returns when asked for one height: a block, `null`
      (the height is beyond the tip), or a thrown error. */
  datatype Outcome<B> = Block(header: B) | Null | Error

  /** The result of one call of `fetch(h, loop)`: the store afterwards, the
      height the next call is made with, and whether a next call is made.
      When no next call is made, `cursor` is the height after the one just
      written. */
  datatype StepResult = StepResult(store: Store, cursor: nat, continues: bool)

  /** The result of driving the fetcher over a sequence of answers. `halted`
      means the run ended by itself (an insert with `loop = false`); otherwise
      the answers ran out while the fetcher was about to ask for `cursor`. */
  datatype RunResult = RunResult(store: Store, cursor: nat, halted: bool)

  /** How many stored heights are at or above `h`: the number of skips the
      fetcher can still make without consulting the source. */
  ghost function Ahead(s: Store, h: nat): nat
  {
    |StoredFrom(s, h)|
  }

  /** The stored heights at or above `h`. */
  ghost function StoredFrom(s: Store, h: nat): set<nat>
  {
    set k | k in s && h <= k
  }

  /** Skipping a stored height leaves one skip fewer: the termination
      argument of the exists branch. */
  lemma SkipShrinksAhead(s: Store, h: nat)
    requires h in s
    ensures Ahead(s, h + 1) < Ahead(s, h)
  {
    var after, before := StoredFrom(s, h + 1), StoredFrom(s, h);
    assert before == after + {h} && h !in after;
  }

  /** `fetch` once the exists check has failed: ask the source for `h` and act
      on its answer. A block is serialized (`ser` stands for `parseHeader`
      followed by `JSON.stringify`) and inserted; a rejected insert is a
      thrown error like any other. Every failure retries the same height. */
  function Attempt<B>(s: Store, h: nat, loop: bool, answer: Outcome<B>, ser: B -> string): (r: StepResult)
    requires h !in s
    ensures r.cursor == h || r.cursor == h + 1
    ensures r.cursor == h + 1 <==> answer.Block? && ser(answer.header) !in s.Values
    ensures r.cursor == h ==> r.store == s && r.continues
    ensures r.cursor == h + 1 ==> Extends(s, r.store, h, ser(answer.header)) && r.continues == loop
    ensures UniquePayloads(s) ==> UniquePayloads(r.store)
  {
    match answer
    case Block(header) =>
      (match Insert(s, h, ser(header))
       case Inserted(s') => StepResult(s', h + 1, loop)
       case Rejected => StepResult(s, h, true))
    case Null => StepResult(s, h, true)
    case Error => StepResult(s, h, true)
  }

  /** One call of `fetch(h, loop)`. A stored height is skipped without asking
      the source; `answer` is what the source would return if asked. */
  function Step<B>(s: Store, h: nat, loop: bool, answer: Outcome<B>, ser: B -> string): (r: StepResult)
    ensures r.cursor == h || r.cursor == h + 1
    ensures h in s ==> r.store == s && r.cursor == h + 1 && r.continues
    ensures h !in s && answer.Block? && ser(answer.header) !in s.Values ==>
              Extends(s, r.store, h, ser(answer.header)) && r.cursor == h + 1 && r.continues == loop
    ensures h !in s && !(answer.Block? && ser(answer.header) !in s.Values) ==>
              r.store == s && r.cursor == h && r.continues
    ensures !r.continues ==> !loop && r.store.Keys == s.Keys + {h}
    ensures Keeps(s, r.store)
    ensures UniquePayloads(s) ==> UniquePayloads(r.store)
  {
    if h in s then StepResult(s, h + 1, true)
    else Attempt(s, h, loop, answer, ser)
  }

  /** The fetcher started at `h` with flag `loop`, driven by `answers`, one
      answer per time the source is consulted. This is the reference
      definition; `FetchLoop` computes the same thing with a loop. The
      cursor never moves below the start, and a run that has not halted is
      waiting on a height it does not hold. */
  function Run<B>(s: Store, h: nat, loop: bool, answers: seq<Outcome<B>>, ser: B -> string): (r: RunResult)
    ensures h <= r.cursor
    ensures !r.halted ==> r.cursor !in r.store
    decreases |answers|, Ahead(s, h)
  {
    if h in s then
      SkipShrinksAhead(s, h);
      Run(s, h + 1, true, answers, ser)
    else if |answers| == 0 then
      RunResult(s, h, false)
    else
      var st := Attempt(s, h, loop, answers[0], ser);
      if st.continues then Run(st.store, st.cursor, true, answers[1..], ser)
      else RunResult(st.store, st.cursor, true)
  }

  /** `loop(start)`: open the store at `start`, then fetch from `start` with
      looping on. Everything it leaves in the store lies at or above `start`,
      the heights from `start` up to the cursor are all stored, it never halts
      by itself, and a table whose payloads were unique keeps them unique. */
  function Loop<B>(t: Table, start: nat, answers: seq<Outcome<B>>, ser: B -> string): (r: RunResult)
    ensures forall k :: k in r.store ==> start <= k
    ensures forall k :: start <= k < r.cursor ==> k in r.store
    ensures !r.halted
    ensures t.Present? && UniquePayloads(t.rows) ==> UniquePayloads(r.store)
  {
    var s := CheckTable(t, start);
    RunProgress(s, start, true, answers, ser);
    RunKeepsLooping(s, start, answers, ser);
    RunPreservesUnique(s, start, true, answers, ser);
    Run(s, start, true, answers, ser)
  }

  /** The fetcher as an explicit loop: each iteration is one call of `fetch`,
      and a retry or advance continues the loop instead of recursing. */
  method FetchLoop<B>(s: Store, start: nat, loop: bool, answers: seq<Outcome<B>>, ser: B -> string)
    returns (store: Store, cursor: nat, halted: bool)
    ensures RunResult(store, cursor, halted) == Run(s, start, loop, answers, ser)
  {
    store, cursor, halted := s, start, false;
    var looping := loop;
    var i := 0;
    while !halted && (cursor in store || i < |answers|)
      invariant 0 <= i <= |answers|
      invariant !halted ==> Run(store, cursor, looping, answers[i..], ser) == Run(s, start, loop, answers, ser)
      invariant halted ==> RunResult(store, cursor, true) == Run(s, start, loop, answers, ser)
      decreases |answers| - i, Ahead(store, cursor)
    {
      if cursor in store {
        SkipShrinksAhead(store, cursor);
        cursor, looping := cursor + 1, true;
      } else {
        assert answers[i..][0] == answers[i] && answers[i..][1..] == answers[i + 1..];
        var st := Attempt(store, cursor, looping, answers[i], ser);
        store, cursor, halted, looping := st.store, st.cursor, !st.continues, true;
        i := i + 1;
      }
    }
  }

  /** A run only adds rows: every row it started with survives unchanged. */
  lemma {:induction false} RunKeeps<B>(s: Store, h: nat, loop: bool, answers: seq<Outcome<B>>, ser: B -> string)
    ensures Keeps(s, Run(s, h, loop, answers, ser).store)
    decreases |answers|, Ahead(s, h)
  {
    if h in s {
      SkipShrinksAhead(s, h);
      RunKeeps(s, h + 1, true, answers, ser);
    } else if |answers| > 0 {
      var st := Attempt(s, h, loop, answers[0], ser);
      if st.continues {
        RunKeeps(st.store, st.cursor, true, answers[1..], ser);
      }
    }
  }

  /** No two rows ever share a payload, and (the store being a map) no two
      rows share a height. */
  lemma {:induction false} RunPreservesUnique<B>(s: Store, h: nat, loop: bool, answers: seq<Outcome<B>>, ser: B -> string)
    ensures UniquePayloads(s) ==> UniquePayloads(Run(s, h, loop, answers, ser).store)
    decreases |answers|, Ahead(s, h)
  {
    if h in s {
      SkipShrinksAhead(s, h);
      RunPreservesUnique(s, h + 1, true, answers, ser);
    } else if |answers| > 0 {
      var st := Attempt(s, h, loop, answers[0], ser);
      if st.continues {
        RunPreservesUnique(st.store, st.cursor, true, answers[1..], ser);
      }
    }
  }

  /** Every height the cursor has passed is stored (no gaps), and every row
      the run added lies in the passed range. */
  lemma {:induction false} RunProgress<B>(s: Store, h: nat, loop: bool, answers: seq<Outcome<B>>, ser: B -> string)
    ensures forall k :: h <= k < Run(s, h, loop, answers, ser).cursor ==> k in Run(s, h, loop, answers, ser).store
    ensures forall k :: k in Run(s, h, loop, answers, ser).store && k !in s ==> h <= k < Run(s, h, loop, answers, ser).cursor
    decreases |answers|, Ahead(s, h)
  {
    var r := Run(s, h, loop, answers, ser);
    if h in s {
      SkipShrinksAhead(s, h);
      RunProgress(s, h + 1, true, answers, ser);
      RunKeeps(s, h + 1, true, answers, ser);
    } else if |answers| > 0 {
      var st := Attempt(s, h, loop, answers[0], ser);
      if st.continues {
        RunProgress(st.store, st.cursor, true, answers[1..], ser);
        RunKeeps(st.store, st.cursor, true, answers[1..], ser);
      }
    }
  }

  /** Idempotent replay: when every height in [h, k) is already stored, the
      fetcher skips straight to `k` without consulting the source or writing
      anything (with looping switched on once it has skipped at least once). */
  lemma {:induction false} ReplaySkips<B>(s: Store, h: nat, k: nat, loop: bool, answers: seq<Outcome<B>>, ser: B -> string)
    requires h <= k
    requires forall j :: h <= j < k ==> j in s
    ensures Run(s, h, loop, answers, ser) == Run(s, k, loop || h < k, answers, ser)
    decreases k - h
  {
    if h < k {
      ReplaySkips(s, h + 1, k, true, answers, ser);
    }
  }

  /** A second fetcher started at the same height on the store the first one
      left behind re-fetches nothing up to the first one's cursor. */
  lemma ReplayAfterRun<B>(s: Store, h: nat, loop: bool, answers: seq<Outcome<B>>, again: seq<Outcome<B>>, ser: B -> string)
    ensures var r := Run(s, h, loop, answers, ser);
            Run(r.store, h, true, again, ser) == Run(r.store, r.cursor, true, again, ser)
  {
    var r := Run(s, h, loop, answers, ser);
    RunProgress(s, h, loop, answers, ser);
    ReplaySkips(r.store, h, r.cursor, true, again, ser);
  }

  /** A run started with looping on never halts by itself. */
  lemma {:induction false} RunKeepsLooping<B>(s: Store, h: nat, answers: seq<Outcome<B>>, ser: B -> string)
    ensures !Run(s, h, true, answers, ser).halted
    decreases |answers|, Ahead(s, h)
  {
    if h in s {
      SkipShrinksAhead(s, h);
      RunKeepsLooping(s, h + 1, answers, ser);
    } else if |answers| > 0 {
      var st := Attempt(s, h, true, answers[0], ser);
      RunKeepsLooping(st.store, st.cursor, answers[1..], ser);
    }
  }

  /** Waiting at the tip converges: if the source answers `null` or fails a
      number of times and then returns a block whose payload is new, that
      block is stored at the height the fetcher was waiting on. */
  lemma {:induction false} TipWaitConverges<B>(s: Store, h: nat, loop: bool, n: nat, b: B,
                                               answers: seq<Outcome<B>>, ser: B -> string)
    requires h !in s
    requires n < |answers|
    requires forall i :: 0 <= i < n ==> !answers[i].Block?
    requires answers[n] == Block(b)
    requires ser(b) !in s.Values
    ensures h in Run(s, h, loop, answers, ser).store
    ensures Run(s, h, loop, answers, ser).store[h] == ser(b)
    decreases n
  {
    var st := Attempt(s, h, loop, answers[0], ser);
    if n == 0 {
      if st.continues {
        RunKeeps(st.store, st.cursor, true, answers[1..], ser);
      }
    } else {
      TipWaitConverges(s, h, true, n - 1, b, answers[1..], ser);
    }
  }

  /** `Run` is `Step` iterated: a stored height is a step that consults no
      source, any other height is a step that consumes one answer. */
  lemma RunFollowsStep<B>(s: Store, h: nat, loop: bool, a: Outcome<B>, answers: seq<Outcome<B>>, ser: B -> string)
    ensures h in s ==>
              var st := Step(s, h, loop, a, ser);
              Run(s, h, loop, answers, ser) == Run(st.store, st.cursor, true, answers, ser)
    ensures h !in s ==>
              var st := Step(s, h, loop, a, ser);
              Run(s, h, loop, [a] + answers, ser)
                == if st.continues then Run(st.store, st.cursor, true, answers, ser)
                   else RunResult(st.store, st.cursor, true)
  {
  }

  /** Serializing a header that is already a string: the identity. */
  function Verbatim(header: string): string
  {
    header
  }

  /** Start at 100 on an empty store, receive three blocks: heights 100, 101
      and 102 are stored in order; a second fetcher started at 100 on that
      store skips all three and first consults the source for 103. */
  lemma ThreeBlocksFromHundred(again: seq<Outcome<string>>)
    ensures var r := Loop(Missing, 100, [Block("a"), Block("b"), Block("c")], Verbatim);
            && r.store == map[100 := "a", 101 := "b", 102 := "c"]
            && r.cursor == 103
            && Run(r.store, 100, true, again, Verbatim) == Run(r.store, 103, true, again, Verbatim)
  {
    var answers: seq<Outcome<string>> := [Block("a"), Block("b"), Block("c")];
    var s0: Store := map[];
    var s1 := s0[100 := "a"];
    var s2 := s1[101 := "b"];
    var s3 := s2[102 := "c"];
    assert "a" !in s0.Values;
    assert "a" != "b" && "a" != "c" && "b" != "c" by {
      assert "a"[0] != "b"[0] && "a"[0] != "c"[0] && "b"[0] != "c"[0];
    }
    assert "b" !in s1.Values by {
      forall k | k in s1 ensures s1[k] != "b" { assert k == 100; }
    }
    assert "c" !in s2.Values by {
      forall k | k in s2 ensures s2[k] != "c" { assert k == 100 || k == 101; }
    }
    assert 103 !in s3;
    assert Run(s3, 103, true, [], Verbatim) == RunResult(s3, 103, false);
    assert answers[1..] == [Block("b"), Block("c")];
    assert answers[1..][1..] == [Block("c")];
    assert Run(s2, 102, true, [Block("c")], Verbatim) == RunResult(s3, 103, false);
    assert Run(s1, 101, true, answers[1..], Verbatim) == RunResult(s3, 103, false);
    assert Run(s0, 100, true, answers, Verbatim) == RunResult(s3, 103, false);
    ReplayAfterRun(s0, 100, true, answers, again, Verbatim);
  }
}
