/**
 The walk over a SavedModel's function library that byte-swaps every
 constant. Each function of the library is a sequence of nodes; every
 node whose op is "Const" may carry its value as a tensor, and that
 tensor's content is swapped in place. Nothing else is touched: nodes
 and functions are values the walk only reads, and a tensor's element
 type and shape never change.

 A swap that raises stops the walk: the tensors before it stay
 swapped, the failing one and those after it stay as they were.
 */
module FunctionWalk {
  import opened Endian
  import opened TensorSwap

  datatype Option<T> = None | Some(value: T)

  /** A node of a function body; `value` is the tensor of its "value" attribute. */
  datatype NodeDef = NodeDef(op: string, value: Option<Tensor>)

  datatype FunctionDef = FunctionDef(nodes: seq<NodeDef>)

  /** Node n is a constant whose value is the tensor t. */
  predicate IsConstWith(n: NodeDef, t: Tensor) {
    n.op == "Const" && n.value == Some(t)
  }

  /**
   The tensors of the constants among `nodes`, in node order: the
   tensors the walk swaps in one function.
   */
  function ConstTensors(nodes: seq<NodeDef>): seq<Tensor> {
    if nodes == [] then []
    else ConstTensors(nodes[..|nodes| - 1]) + ConstTensor(nodes[|nodes| - 1])
  }

  /** Node n is a constant that has a value. */
  predicate IsConst(n: NodeDef) {
    n.op == "Const" && n.value.Some?
  }

  /** The tensor the walk swaps at one node: its value if it is a constant that has one. */
  function ConstTensor(node: NodeDef): seq<Tensor> {
    if IsConst(node) then [node.value.value] else []
  }

  /** The constant tensors of the whole library, function by function. */
  function LibraryConstTensors(functions: seq<FunctionDef>): seq<Tensor> {
    if functions == [] then []
    else LibraryConstTensors(functions[..|functions| - 1]) + ConstTensors(functions[|functions| - 1].nodes)
  }

  /**
   The walk of one function swaps only constants: every tensor it swaps
   is the value of a "Const" node.
   */
  lemma {:induction false} ConstTensorsSound(nodes: seq<NodeDef>)
    ensures |ConstTensors(nodes)| <= |nodes|
    ensures forall k :: 0 <= k < |ConstTensors(nodes)| ==>
      exists i :: 0 <= i < |nodes| && IsConstWith(nodes[i], ConstTensors(nodes)[k])
  {
    if nodes != [] {
      var init := nodes[..|nodes| - 1];
      ConstTensorsSound(init);
      var ts := ConstTensors(nodes);
      forall k | 0 <= k < |ts|
        ensures exists i :: 0 <= i < |nodes| && IsConstWith(nodes[i], ts[k])
      {
        if k < |ConstTensors(init)| {
          var i :| 0 <= i < |init| && IsConstWith(init[i], ConstTensors(init)[k]);
          assert IsConstWith(nodes[i], ts[k]);
        } else {
          assert IsConstWith(nodes[|nodes| - 1], ts[k]);
        }
      }
    }
  }

  /**
   The walk of one function misses no constant: every "Const" node that
   has a value has its tensor swapped.
   */
  lemma {:induction false} ConstTensorsComplete(nodes: seq<NodeDef>)
    ensures forall i :: 0 <= i < |nodes| && IsConst(nodes[i]) ==> nodes[i].value.value in ConstTensors(nodes)
  {
    if nodes != [] {
      var init := nodes[..|nodes| - 1];
      ConstTensorsComplete(init);
      forall i | 0 <= i < |nodes| && IsConst(nodes[i])
        ensures nodes[i].value.value in ConstTensors(nodes)
      {
        var t := nodes[i].value.value;
        assert ConstTensors(nodes) == ConstTensors(init) + ConstTensor(nodes[|nodes| - 1]);
        if i < |init| {
          assert init[i] == nodes[i];
          assert t in ConstTensors(init);
        } else {
          assert t in ConstTensor(nodes[|nodes| - 1]);
        }
      }
    }
  }

  /** t is the value of a "Const" node of one of the functions. */
  predicate ConstOfLibrary(functions: seq<FunctionDef>, t: Tensor) {
    exists f, i :: 0 <= f < |functions| && 0 <= i < |functions[f].nodes| && IsConstWith(functions[f].nodes[i], t)
  }

  /** Every tensor the library walk swaps is the value of a "Const" node of some function. */
  lemma {:induction false} LibraryConstTensorsSound(functions: seq<FunctionDef>)
    ensures forall k :: 0 <= k < |LibraryConstTensors(functions)| ==>
      ConstOfLibrary(functions, LibraryConstTensors(functions)[k])
  {
    if functions != [] {
      var init := functions[..|functions| - 1];
      var last := |functions| - 1;
      var nodes := functions[last].nodes;
      LibraryConstTensorsSound(init);
      ConstTensorsSound(nodes);
      var ts := LibraryConstTensors(functions);
      var n := |LibraryConstTensors(init)|;
      assert ts == LibraryConstTensors(init) + ConstTensors(nodes);
      forall k | 0 <= k < |ts|
        ensures ConstOfLibrary(functions, ts[k])
      {
        if k < n {
          var f, i :| 0 <= f < |init| && 0 <= i < |init[f].nodes|
            && IsConstWith(init[f].nodes[i], LibraryConstTensors(init)[k]);
          assert init[f] == functions[f];
          assert IsConstWith(functions[f].nodes[i], ts[k]);
        } else {
          assert ts[k] == ConstTensors(nodes)[k - n];
          var i :| 0 <= i < |nodes| && IsConstWith(nodes[i], ConstTensors(nodes)[k - n]);
          assert IsConstWith(functions[last].nodes[i], ts[k]);
        }
      }
    }
  }

  /** Every "Const" node with a value, in any function of the library, has its tensor swapped. */
  lemma {:induction false} LibraryConstTensorsComplete(functions: seq<FunctionDef>)
    ensures forall f, i :: 0 <= f < |functions| && 0 <= i < |functions[f].nodes| && IsConst(functions[f].nodes[i]) ==>
      functions[f].nodes[i].value.value in LibraryConstTensors(functions)
  {
    if functions != [] {
      var init := functions[..|functions| - 1];
      LibraryConstTensorsComplete(init);
      ConstTensorsComplete(functions[|functions| - 1].nodes);
      forall f, i | 0 <= f < |functions| && 0 <= i < |functions[f].nodes| && IsConst(functions[f].nodes[i])
        ensures functions[f].nodes[i].value.value in LibraryConstTensors(functions)
      {
        if f < |init| {
          assert init[f] == functions[f];
        }
      }
    }
  }

  /** No tensor is the value of two constants (each node owns its tensor). */
  predicate Distinct(ts: seq<Tensor>) {
    forall i, j :: 0 <= i < j < |ts| ==> ts[i] != ts[j]
  }

  /** The contents of the tensors ts, in order. */
  ghost function Contents(ts: seq<Tensor>): (cs: seq<seq<byte>>)
    reads set t | t in ts
    ensures |cs| == |ts|
  {
    seq(|ts|, k requires 0 <= k < |ts| reads ts => ts[k].content)
  }

  /** Byte swapping t when it holds `before` leaves it holding `after`. */
  ghost predicate SwapsTo(t: Tensor, before: seq<byte>, after: seq<byte>, src: Endianness, dst: Endianness) {
    SwapTensorContent(t.dtype, t.dims, before, src, dst) == Ok(after)
  }

  /**
   The contents `current` of the tensors ts after a walk over the run
   ts[lo..hi] of them: the tensors of the run hold the swap of their
   `original` content, every other tensor still holds its original
   content.
   */
  ghost predicate SwappedRange(ts: seq<Tensor>, original: seq<seq<byte>>, current: seq<seq<byte>>, lo: nat, hi: nat,
                               src: Endianness, dst: Endianness)
  {
    && |original| == |ts|
    && |current| == |ts|
    && lo <= hi <= |ts|
    && (forall k {:trigger SwapsTo(ts[k], original[k], current[k], src, dst)} :: lo <= k < hi ==>
          SwapsTo(ts[k], original[k], current[k], src, dst))
    && (forall k :: 0 <= k < |ts| && !(lo <= k < hi) ==> current[k] == original[k])
  }

  /**
   A walk over `count` tensors that ended with `outcome`, starting at
   ts[offset]: a pass covered all `total` tensors of the walk, a failure
   stopped at a tensor whose swap raises that error.
   */
  ghost predicate StoppedAt(ts: seq<Tensor>, original: seq<seq<byte>>, offset: nat, count: nat, total: nat,
                            outcome: Outcome, src: Endianness, dst: Endianness)
  {
    && |original| == |ts|
    && offset + count <= offset + total <= |ts|
    && (outcome.Pass? ==> count == total)
    && (outcome.Fail? ==>
          && count < total
          && SwapTensorContent(ts[offset + count].dtype, ts[offset + count].dims, original[offset + count], src, dst)
             == Err(outcome.error))
  }

  /**
   A walk over a part of a run that stopped at a tensor stopped there
   within the whole run too: the part holds the `part` tensors that
   follow the first `before` tensors of the run.
   */
  lemma StoppedWithin(ts: seq<Tensor>, original: seq<seq<byte>>, offset: nat, before: nat, count: nat,
                      part: nat, total: nat, outcome: Outcome, src: Endianness, dst: Endianness)
    requires StoppedAt(ts, original, offset + before, count, part, outcome, src, dst) && outcome.Fail?
    requires before + part <= total && offset + total <= |ts|
    ensures StoppedAt(ts, original, offset, before + count, total, outcome, src, dst)
  {
  }

  lemma ConstTensorsStep(nodes: seq<NodeDef>, j: nat)
    requires j < |nodes|
    ensures ConstTensors(nodes[..j + 1]) == ConstTensors(nodes[..j]) + ConstTensor(nodes[j])
  {
    assert nodes[..j + 1][..j] == nodes[..j];
  }

  lemma LibraryConstTensorsStep(functions: seq<FunctionDef>, i: nat)
    requires i < |functions|
    ensures LibraryConstTensors(functions[..i + 1]) == LibraryConstTensors(functions[..i]) + ConstTensors(functions[i].nodes)
  {
    assert functions[..i + 1][..i] == functions[..i];
  }

  /**
   Where node j's constant sits among the constants of all the nodes:
   right after those of the nodes before it.
   */
  lemma ConstTensorsNext(nodes: seq<NodeDef>, j: nat)
    requires j < |nodes|
    ensures var n := |ConstTensors(nodes[..j])|;
      && |ConstTensors(nodes[..j + 1])| == n + |ConstTensor(nodes[j])|
      && n + |ConstTensor(nodes[j])| <= |ConstTensors(nodes)|
      && (IsConst(nodes[j]) ==> ConstTensors(nodes)[n] == nodes[j].value.value)
  {
    ConstTensorsStep(nodes, j);
    ConstTensorsPrefix(nodes, j + 1);
  }

  /**
   With the constants of `nodes` placed in ts from ts[offset] on, node
   j's constant, if it has one, is the tensor right after those of the
   nodes before it.
   */
  lemma NodePlaced(nodes: seq<NodeDef>, j: nat, ts: seq<Tensor>, offset: nat)
    requires j < |nodes| && PlacedAt(ConstTensors(nodes), ts, offset)
    ensures var n := |ConstTensors(nodes[..j])|;
      && |ConstTensors(nodes[..j + 1])| == n + |ConstTensor(nodes[j])|
      && n + |ConstTensor(nodes[j])| <= |ConstTensors(nodes)|
      && (IsConst(nodes[j]) ==> offset + n < |ts| && ts[offset + n] == nodes[j].value.value)
  {
    ConstTensorsNext(nodes, j);
  }

  lemma {:induction false} ConstTensorsPrefix(nodes: seq<NodeDef>, j: nat)
    requires j <= |nodes|
    ensures ConstTensors(nodes[..j]) <= ConstTensors(nodes)
    decreases |nodes| - j
  {
    if j < |nodes| {
      ConstTensorsPrefix(nodes, j + 1);
      ConstTensorsStep(nodes, j);
    } else {
      assert nodes[..j] == nodes;
    }
  }

  lemma {:induction false} LibraryConstTensorsPrefix(functions: seq<FunctionDef>, i: nat)
    requires i <= |functions|
    ensures LibraryConstTensors(functions[..i]) <= LibraryConstTensors(functions)
    decreases |functions| - i
  {
    if i < |functions| {
      LibraryConstTensorsPrefix(functions, i + 1);
      LibraryConstTensorsStep(functions, i);
    } else {
      assert functions[..i] == functions;
    }
  }

  /** The tensors `run` sit side by side in ts from ts[offset] on. */
  predicate PlacedAt(run: seq<Tensor>, ts: seq<Tensor>, offset: nat) {
    offset + |run| <= |ts| && forall m :: 0 <= m < |run| ==> run[m] == ts[offset + m]
  }

  /** When a + b is a prefix of ts, the tensors of b sit in ts right after those of a. */
  lemma PlacedAfter(a: seq<Tensor>, b: seq<Tensor>, ts: seq<Tensor>)
    requires a + b <= ts
    ensures PlacedAt(b, ts, |a|)
  {
    assert forall m :: 0 <= m < |b| ==> (a + b)[|a| + m] == b[m];
  }

  /**
   The constants of function i sit in the library's list of constants
   right after those of the functions before it.
   */
  lemma FunctionPlaced(functions: seq<FunctionDef>, i: nat)
    requires i < |functions|
    ensures var n := |LibraryConstTensors(functions[..i])|;
      && |LibraryConstTensors(functions[..i + 1])| == n + |ConstTensors(functions[i].nodes)|
      && LibraryConstTensors(functions[..i + 1]) <= LibraryConstTensors(functions)
      && PlacedAt(ConstTensors(functions[i].nodes), LibraryConstTensors(functions), n)
  {
    LibraryConstTensorsStep(functions, i);
    LibraryConstTensorsPrefix(functions, i + 1);
    PlacedAfter(LibraryConstTensors(functions[..i]), ConstTensors(functions[i].nodes), LibraryConstTensors(functions));
  }

  /** Two walks over adjacent runs make one walk over their union. */
  lemma ComposeRanges(ts: seq<Tensor>, c0: seq<seq<byte>>, c1: seq<seq<byte>>, c2: seq<seq<byte>>,
                      lo: nat, mid: nat, hi: nat, src: Endianness, dst: Endianness)
    requires SwappedRange(ts, c0, c1, lo, mid, src, dst)
    requires SwappedRange(ts, c1, c2, mid, hi, src, dst)
    ensures SwappedRange(ts, c0, c2, lo, hi, src, dst)
  {
    forall k | lo <= k < hi
      ensures SwapsTo(ts[k], c0[k], c2[k], src, dst)
    {
      if k < mid {
        assert c2[k] == c1[k];
      } else {
        assert c1[k] == c0[k];
      }
    }
  }

  /**
   The body of the walk over a function's nodes: a "Const" node has the
   tensor of its value swapped, any other node is passed over. The
   tensor, if any, is ts[i] in the caller's list of distinct tensors, of
   which the run ts[lo..i] has already been swapped from its `original`
   content; on return the run is extended by the tensor swapped here.
   */
  method SwapNode(node: NodeDef, src: Endianness, dst: Endianness,
                  ghost ts: seq<Tensor>, ghost original: seq<seq<byte>>, ghost lo: nat, ghost i: nat)
      returns (outcome: Outcome, ghost count: nat)
    requires Distinct(ts)
    requires IsConst(node) ==> i < |ts| && ts[i] == node.value.value
    requires SwappedRange(ts, original, Contents(ts), lo, i, src, dst)
    modifies if IsConst(node) then {node.value.value} else {}
    ensures SwappedRange(ts, original, Contents(ts), lo, i + count, src, dst)
    ensures StoppedAt(ts, original, i, count, |ConstTensor(node)|, outcome, src, dst)
  {
    ghost var pre := Contents(ts);
    if node.op == "Const" {
      match node.value
      case Some(tensor) =>
        assert ts[i] == tensor;
        assert forall k :: 0 <= k < |ts| && k != i ==> ts[k] != tensor;
        var result := tensor.ByteSwapContent(src, dst);
        ghost var post := Contents(ts);
        assert forall k :: 0 <= k < |ts| && k != i ==> post[k] == pre[k];
        if result.Fail? {
          assert post == pre;
          return result, 0;
        }
        assert SwapsTo(ts[i], original[i], post[i], src, dst);
        return Pass, 1;
      case None =>
        // a missing "value" attribute reads as an empty tensor of
        // invalid type, which the swap leaves alone
    }
    return Pass, 0;
  }

  /**
   Byte-swaps the constants among the nodes of one function, in node
   order, stopping at the first swap that raises. The caller tracks a
   list ts of distinct tensors in which the constants of this function
   sit side by side from ts[offset] on; the contract speaks of that
   whole list, so that a walk over many functions can chain the calls
   (a walk over one function alone passes its constants and offset 0).
   */
  method SwapNodeTensorContent(nodes: seq<NodeDef>, src: Endianness, dst: Endianness,
                               ghost ts: seq<Tensor>, ghost offset: nat)
      returns (outcome: Outcome, ghost swapped: nat)
    requires Distinct(ts)
    requires PlacedAt(ConstTensors(nodes), ts, offset)
    modifies set t | t in ts
    ensures SwappedRange(ts, old(Contents(ts)), Contents(ts), offset, offset + swapped, src, dst)
    ensures StoppedAt(ts, old(Contents(ts)), offset, swapped, |ConstTensors(nodes)|, outcome, src, dst)
  {
    ghost var original := Contents(ts);
    swapped := 0;
    for j := 0 to |nodes|
      invariant swapped == |ConstTensors(nodes[..j])|
      invariant SwappedRange(ts, original, Contents(ts), offset, offset + swapped, src, dst)
    {
      NodePlaced(nodes, j, ts, offset);
      ghost var before := swapped;
      var result, count := SwapNode(nodes[j], src, dst, ts, original, offset, offset + swapped);
      swapped := swapped + count;
      if result.Fail? {
        StoppedWithin(ts, original, offset, before, count, |ConstTensor(nodes[j])|, |ConstTensors(nodes)|,
                      result, src, dst);
        return result, swapped;
      }
    }
    assert nodes[..|nodes|] == nodes;
    return Pass, swapped;
  }

  /**
   The body of the walk over the library: the constants of one function
   are swapped. They sit side by side in the caller's list ts of distinct
   tensors from ts[offset] on, the tensors before them have already been
   swapped from their `original` content, and on return the swapped run
   is extended by the constants of this function swapped here.
   */
  method SwapFunction(fn: FunctionDef, src: Endianness, dst: Endianness,
                      ghost ts: seq<Tensor>, ghost original: seq<seq<byte>>, ghost offset: nat)
      returns (outcome: Outcome, ghost count: nat)
    requires Distinct(ts)
    requires PlacedAt(ConstTensors(fn.nodes), ts, offset)
    requires SwappedRange(ts, original, Contents(ts), 0, offset, src, dst)
    modifies set t | t in ts
    ensures SwappedRange(ts, original, Contents(ts), 0, offset + count, src, dst)
    ensures StoppedAt(ts, original, offset, count, |ConstTensors(fn.nodes)|, outcome, src, dst)
  {
    ghost var pre := Contents(ts);
    outcome, count := SwapNodeTensorContent(fn.nodes, src, dst, ts, offset);
    ComposeRanges(ts, original, pre, Contents(ts), 0, offset, offset + count, src, dst);
  }

  /**
   One step of the walk over the library: the constants of function i
   are swapped, after those of the functions before it. In the list ts
   of all the library's constants, the run swapped so far is extended
   by this function's constants, or ends at the one whose swap raises.
   */
  method SwapNextFunction(functions: seq<FunctionDef>, i: nat, src: Endianness, dst: Endianness,
                          ghost ts: seq<Tensor>, ghost original: seq<seq<byte>>, ghost swapped: nat)
      returns (outcome: Outcome, ghost next: nat)
    requires i < |functions| && ts == LibraryConstTensors(functions) && Distinct(ts)
    requires LibraryConstTensors(functions[..i]) <= ts && swapped == |LibraryConstTensors(functions[..i])|
    requires SwappedRange(ts, original, Contents(ts), 0, swapped, src, dst)
    modifies set t | t in ts
    ensures SwappedRange(ts, original, Contents(ts), 0, next, src, dst)
    ensures outcome.Pass? ==>
              LibraryConstTensors(functions[..i + 1]) <= ts && next == |LibraryConstTensors(functions[..i + 1])|
    ensures outcome.Fail? ==> StoppedAt(ts, original, 0, next, |ts|, outcome, src, dst)
  {
    ghost var here := ConstTensors(functions[i].nodes);
    FunctionPlaced(functions, i);
    ghost var count;
    outcome, count := SwapFunction(functions[i], src, dst, ts, original, swapped);
    next := swapped + count;
    if outcome.Fail? {
      StoppedWithin(ts, original, 0, swapped, count, |here|, |ts|, outcome, src, dst);
    }
  }

  /**
   Byte-swaps the constants of every function of the library, function
   by function and node by node. `swapped` counts the constant tensors
   handled before the walk ended: all of them when it passes, those
   before the failing one when a swap raises.
   */
  method SwapFunctionTensorContent(functions: seq<FunctionDef>, src: Endianness, dst: Endianness)
      returns (outcome: Outcome, ghost swapped: nat)
    requires Distinct(LibraryConstTensors(functions))
    modifies set t | t in LibraryConstTensors(functions)
    ensures SwappedRange(LibraryConstTensors(functions), old(Contents(LibraryConstTensors(functions))),
                         Contents(LibraryConstTensors(functions)), 0, swapped, src, dst)
    ensures StoppedAt(LibraryConstTensors(functions), old(Contents(LibraryConstTensors(functions))),
                      0, swapped, |LibraryConstTensors(functions)|, outcome, src, dst)
  {
    ghost var ts := LibraryConstTensors(functions);
    ghost var original := Contents(ts);
    swapped := 0;
    for i := 0 to |functions|
      invariant LibraryConstTensors(functions[..i]) <= ts
      invariant swapped == |LibraryConstTensors(functions[..i])|
      invariant SwappedRange(ts, original, Contents(ts), 0, swapped, src, dst)
    {
      var result;
      result, swapped := SwapNextFunction(functions, i, src, dst, ts, original, swapped);
      if result.Fail? {
        return result, swapped;
      }
    }
    assert functions[..|functions|] == functions;
    return Pass, swapped;
  }
}
