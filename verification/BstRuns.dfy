/**
  Runs of operations on the tree, told by what is held before and after each of them, and
  what follows for any run that is told so.
*/
module BstRuns {
  import opened BstContents

  datatype End = Smallest | Largest

  datatype Op<V> = PutOp(value: V) | TakeOp(end: End)

  datatype OpResult<V> = Accepted | Refused | Took(value: V) | NoneHeld

  /** The value is one of those held, and none of them comes before it from that end. */
  ghost predicate Extreme<K, V>(ord: Order<K, V>, end: End, v: V, held: multiset<V>) {
    && v in held
    && forall w :: w in held ==>
         if end == Smallest then ord.cmp(ord.keyOf(v), ord.keyOf(w)) <= 0 else ord.cmp(ord.keyOf(w), ord.keyOf(v)) <= 0
  }

  /** What one operation does to what is held.  An accepted value may be lost at once. */
  ghost predicate OpStep<K, V>(ord: Order<K, V>, op: Op<V>, result: OpResult<V>, lost: bool, before: multiset<V>,
                               after: multiset<V>) {
    match op
    case PutOp(v) =>
      if result == Accepted then after == (if lost then before else before + multiset{v})
      else result == Refused && !lost && after == before
    case TakeOp(end) =>
      && !lost
      && if result.Took? then Extreme(ord, end, result.value, before) && after + multiset{result.value} == before
         else result == NoneHeld && before == multiset{} && after == before
  }

  /** Takes from the ends alone, with what is held between them. */
  ghost predicate TakesOf<K, V>(ord: Order<K, V>, ends: seq<End>, out: seq<V>, held: seq<multiset<V>>) {
    && |out| <= |ends| && |held| == |out| + 1
    && (forall i :: 0 <= i < |out| ==> Extreme(ord, ends[i], out[i], held[i]))
    && (forall i :: 0 <= i < |out| ==> held[i + 1] + multiset{out[i]} == held[i])
  }

  lemma NoTakes<K, V>(ord: Order<K, V>, ends: seq<End>, held: multiset<V>)
    ensures TakesOf(ord, ends, [], [held])
  {}

  lemma {:induction false} TakesSnoc<K, V>(ord: Order<K, V>, ends: seq<End>, out: seq<V>, held: seq<multiset<V>>, v: V,
                                           left: multiset<V>)
    requires TakesOf(ord, ends, out, held) && |out| < |ends|
    requires Extreme(ord, ends[|out|], v, held[|out|]) && left + multiset{v} == held[|out|]
    ensures TakesOf(ord, ends, out + [v], held + [left])
  {
    hide Extreme;
    var out', held' := out + [v], held + [left];
    forall i | 0 <= i < |out'|
      ensures Extreme(ord, ends[i], out'[i], held'[i]) && held'[i + 1] + multiset{out'[i]} == held'[i]
    {
      if i < |out| { assert out'[i] == out[i] && held'[i] == held[i] && held'[i + 1] == held[i + 1]; }
    }
  }

  /** A whole run, with what is held between the operations. */
  ghost predicate RunOf<K, V>(ord: Order<K, V>, ops: seq<Op<V>>, results: seq<OpResult<V>>, lost: seq<bool>,
                              held: seq<multiset<V>>) {
    && |results| == |ops| && |lost| == |ops| && |held| == |ops| + 1
    && forall i :: 0 <= i < |ops| ==> OpStep(ord, ops[i], results[i], lost[i], held[i], held[i + 1])
  }

  /** The values accepted, in order. */
  function Puts<V(==)>(ops: seq<Op<V>>, results: seq<OpResult<V>>): seq<V>
    requires |results| == |ops|
    decreases |ops|
  {
    if ops == [] then []
    else
      var n := |ops| - 1;
      Puts(ops[..n], results[..n]) + if ops[n].PutOp? && results[n] == Accepted then [ops[n].value] else []
  }

  /** The values taken, in order. */
  function Outs<V>(results: seq<OpResult<V>>): seq<V>
    decreases |results|
  {
    if results == [] then []
    else
      var n := |results| - 1;
      Outs(results[..n]) + if results[n].Took? then [results[n].value] else []
  }

  /** The values accepted but lost, in order. */
  function Losses<V>(ops: seq<Op<V>>, lost: seq<bool>): seq<V>
    requires |lost| == |ops|
    decreases |ops|
  {
    if ops == [] then []
    else
      var n := |ops| - 1;
      Losses(ops[..n], lost[..n]) + if ops[n].PutOp? && lost[n] then [ops[n].value] else []
  }

  /** A put is refused exactly when the blocks free at the start and those freed since are used up. */
  ghost predicate RoomRule<V>(free: nat, ops: seq<Op<V>>, results: seq<OpResult<V>>, i: nat)
    requires |results| == |ops| && i < |ops|
  {
    ops[i].PutOp? ==> (results[i] == Refused <==> |Puts(ops[..i], results[..i])| == free + |Outs(results[..i])|)
  }

  // ---------- One operation more ----------

  lemma PutsSnoc<V>(ops: seq<Op<V>>, results: seq<OpResult<V>>, op: Op<V>, result: OpResult<V>)
    requires |results| == |ops|
    ensures Puts(ops + [op], results + [result]) ==
            Puts(ops, results) + if op.PutOp? && result == Accepted then [op.value] else []
    ensures Outs(results + [result]) == Outs(results) + if result.Took? then [result.value] else []
  {
    assert (ops + [op])[..|ops|] == ops && (results + [result])[..|ops|] == results;
  }

  lemma {:induction false} RunSnoc<K, V>(ord: Order<K, V>, ops: seq<Op<V>>, results: seq<OpResult<V>>,
                                         lost: seq<bool>, held: seq<multiset<V>>, op: Op<V>, result: OpResult<V>,
                                         gone: bool, after: multiset<V>)
    requires RunOf(ord, ops, results, lost, held) && OpStep(ord, op, result, gone, held[|ops|], after)
    ensures RunOf(ord, ops + [op], results + [result], lost + [gone], held + [after])
  {
    hide OpStep;
    var ops', results', lost', held' := ops + [op], results + [result], lost + [gone], held + [after];
    forall i | 0 <= i < |ops'| ensures OpStep(ord, ops'[i], results'[i], lost'[i], held'[i], held'[i + 1]) {
      if i < |ops| {
        assert OpStep(ord, ops[i], results[i], lost[i], held[i], held[i + 1]);
      }
    }
  }

  lemma RunNone<K, V>(ord: Order<K, V>, held: multiset<V>)
    ensures RunOf(ord, [], [], [], [held]) && Puts<V>([], []) == [] && Outs<V>([]) == []
  {}

  /** The room rule for one operation more, given how many blocks were free before it. */
  lemma {:induction false} RoomSnoc<V>(start: nat, free: nat, ops: seq<Op<V>>, results: seq<OpResult<V>>, op: Op<V>,
                                       result: OpResult<V>)
    requires |results| == |ops| && free + |Puts(ops, results)| == start + |Outs(results)|
    requires forall i :: 0 <= i < |ops| ==> RoomRule(start, ops, results, i)
    requires op.PutOp? ==> (result == Refused <==> free == 0)
    ensures forall i :: 0 <= i < |ops| + 1 ==> RoomRule(start, ops + [op], results + [result], i)
  {
    hide Puts, Outs;
    var ops', results' := ops + [op], results + [result];
    forall i | 0 <= i < |ops'| ensures RoomRule(start, ops', results', i) {
      assert ops'[..i] == ops[..i] && results'[..i] == results[..i];
      if i < |ops| {
        assert RoomRule(start, ops, results, i);
      } else {
        assert ops[..i] == ops && results[..i] == results;
      }
    }
  }

  // ---------- Conservation ----------

  /** What was there and what came in is what is there, what went out and what was lost. */
  ghost predicate Even<V>(was: multiset<V>, puts: seq<V>, held: multiset<V>, outs: seq<V>, lost: seq<V>) {
    && held + multiset(outs) + multiset(lost) == was + multiset(puts)
    && |held| + |outs| + |lost| == |was| + |puts|
  }

  lemma OneMore<V>(a: multiset<V>, b: multiset<V>, c: multiset<V>, x: multiset<V>)
    ensures (a + x) + b + c == (a + b + c) + x && a + (b + x) + c == (a + b + c) + x
    ensures a + b + (c + x) == (a + b + c) + x
  {}

  lemma Grown<V>(s: seq<V>, v: V)
    ensures multiset(s + [v]) == multiset(s) + multiset{v}
  {}

  lemma EvenPut<V>(was: multiset<V>, puts: seq<V>, held: multiset<V>, outs: seq<V>, lost: seq<V>, v: V)
    requires Even(was, puts, held, outs, lost)
    ensures Even(was, puts + [v], held + multiset{v}, outs, lost) && Even(was, puts + [v], held, outs, lost + [v])
  {
    Grown(puts, v);
    Grown(lost, v);
    OneMore(held, multiset(outs), multiset(lost), multiset{v});
    OneMore(was, multiset(puts), multiset{}, multiset{v});
    assert was + (multiset(puts) + multiset{v}) == was + multiset(puts) + multiset{v};
  }

  lemma EvenTake<V>(was: multiset<V>, puts: seq<V>, held: multiset<V>, outs: seq<V>, lost: seq<V>, left: multiset<V>,
                    v: V)
    requires Even(was, puts, held, outs, lost) && left + multiset{v} == held
    ensures Even(was, puts, left, outs + [v], lost)
  {
    Grown(outs, v);
    OneMore(left, multiset(outs), multiset(lost), multiset{v});
    assert |held| == |left| + 1;
  }

  /**
    Over any such run, what was there and what was accepted is what was taken, what is held
    and what was lost.
  */
  lemma {:induction false} RunConserves<K, V>(ord: Order<K, V>, ops: seq<Op<V>>, results: seq<OpResult<V>>,
                                              lost: seq<bool>, held: seq<multiset<V>>)
    requires RunOf(ord, ops, results, lost, held)
    ensures Even(held[0], Puts(ops, results), held[|ops|], Outs(results), Losses(ops, lost))
    decreases |ops|
  {
    if ops != [] {
      var n := |ops| - 1;
      var ops', results', lost', held' := ops[..n], results[..n], lost[..n], held[..n + 1];
      assert RunOf(ord, ops', results', lost', held');
      RunConserves(ord, ops', results', lost', held');
      assert OpStep(ord, ops[n], results[n], lost[n], held[n], held[n + 1]);
      hide Even, RunOf, Extreme;
      var puts, outs, gone := Puts(ops', results'), Outs(results'), Losses(ops', lost');
      assert puts + [] == puts && outs + [] == outs && gone + [] == gone;
      match ops[n]
      case PutOp(v) =>
        EvenPut(held[0], puts, held[n], outs, gone, v);
      case TakeOp(end) =>
        if results[n].Took? { EvenTake(held[0], puts, held[n], outs, gone, held[n + 1], results[n].value); }
    }
  }
}
