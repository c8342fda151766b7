/** A model of the gradient-flag bookkeeping done by the two decorators
    `custom_fwd` and `custom_bwd` of paddlenlp_kernel's utils.

    The forward wrapper records, on the operator's context object, one flag per
    argument (positional arguments after the context, then keyword values):
    whether that input is a tensor that needs a gradient, a tensor that does not,
    or not a tensor at all. The backward wrapper uses those flags to drop the
    gradients of non-tensor inputs, to blank out the gradients of inputs that
    need none, and finally strips the trailing blanks.
 */
module KernelUtils {

  /** Python's `None` versus any other object. */
  datatype Option<+T> = None | Some(value: T)

  /** The exceptions the two wrappers can raise on their own. */
  datatype Error =
    | IndexError      // a flag written past the end of a pre-existing flag list
    | AttributeError  // the backward wrapper found no flag list on the context

  datatype Result<+T> = Ok(value: T) | Err(error: Error)

  /** An argument of a wrapped operator: a tensor, of which only the
      `stop_gradient` attribute matters here, or any other object. */
  datatype Arg<V> = Tensor(data: V, stopGradient: bool) | NonTensor(data: V)

  /** An entry of `needs_input_grad`: `True`, `False` or the string "not_tensor". */
  datatype Flag = Grad | NoGrad | NotTensor

  /** The context object shared by the forward and the backward phase of one
      operator call; `needsInputGrad` is `None` while the attribute is absent. */
  class Context {
    var needsInputGrad: Option<array<Flag>>

    constructor ()
      ensures needsInputGrad == None
    {
      needsInputGrad := None;
    }

    /** The flag list, if there is one: what the forward wrapper may update in place. */
    function FlagFrame(): set<object>
      reads this
    {
      match needsInputGrad
      case Some(a) => {a}
      case None => {}
    }

    /** The flag list the forward wrapper works on when given `n` arguments:
        the existing one, or `n` fresh `False` entries. */
    ghost function FlagsOr(n: nat): seq<Flag>
      reads this, FlagFrame()
    {
      match needsInputGrad
      case Some(a) => a[..]
      case None => Fresh(n)
    }
  }

  // ---------------------------------------------------------------------------
  // Forward phase: specification

  /** The arguments the forward wrapper examines: positional ones after the
      context, then keyword values in insertion order. With no positional
      argument after the context the source takes the keyword values alone. */
  function CollectArgs<V>(positional: seq<Arg<V>>, keywords: seq<Arg<V>>): (all: seq<Arg<V>>)
    ensures |all| == |positional| + |keywords|
    ensures forall i :: 0 <= i < |positional| ==> all[i] == positional[i]
    ensures forall j :: 0 <= j < |keywords| ==> all[|positional| + j] == keywords[j]
  {
    if |positional| == 0 then keywords else positional + keywords
  }

  /** A new flag list: `[False] * n`. */
  function Fresh(n: nat): (flags: seq<Flag>) {
    seq(n, _ => NoGrad)
  }

  /** Whether the forward wrapper writes the flag of this argument. */
  predicate Writes<V>(a: Arg<V>) {
    a.NonTensor? || !a.stopGradient
  }

  /** The flag of one position after the forward wrapper visited its argument. */
  function StampAt<V>(old_: Flag, a: Arg<V>): (f: Flag) {
    match a
    case Tensor(_, stopGradient) => if stopGradient then old_ else Grad
    case NonTensor(_) => NotTensor
  }

  /** The flag list after the forward wrapper visited every argument; the list
      keeps its length and positions past the last argument are not visited. */
  function Stamped<V>(flags: seq<Flag>, all: seq<Arg<V>>): (stamped: seq<Flag>) {
    seq(|flags|, i requires 0 <= i < |flags| =>
      if i < |all| then StampAt(flags[i], all[i]) else flags[i])
  }

  /** The forward wrapper raises `IndexError` exactly when it must write a flag
      at a position the existing list does not have. */
  predicate WriteFails<V>(flags: seq<Flag>, all: seq<Arg<V>>) {
    exists i :: |flags| <= i < |all| && Writes(all[i])
  }

  /** The flag a fresh list ends up with for one argument. */
  function Classify<V>(a: Arg<V>): (f: Flag) {
    match a
    case Tensor(_, stopGradient) => if stopGradient then NoGrad else Grad
    case NonTensor(_) => NotTensor
  }

  // ---------------------------------------------------------------------------
  // Forward phase: properties

  /** Each visited position is `True` for a tensor that needs a gradient,
      "not_tensor" for a non-tensor, and unchanged for a stop-gradient tensor;
      positions past the arguments are untouched. */
  lemma StampedEntries<V>(flags: seq<Flag>, all: seq<Arg<V>>, i: nat)
    requires i < |flags|
    ensures |Stamped(flags, all)| == |flags|
    ensures i < |all| && all[i].Tensor? && !all[i].stopGradient ==> Stamped(flags, all)[i] == Grad
    ensures i < |all| && all[i].NonTensor? ==> Stamped(flags, all)[i] == NotTensor
    ensures i < |all| && all[i].Tensor? && all[i].stopGradient ==> Stamped(flags, all)[i] == flags[i]
    ensures |all| <= i ==> Stamped(flags, all)[i] == flags[i]
  {
  }

  /** On a context without a flag list the new list has one entry per
      argument, classified by that argument alone, and no write fails. */
  lemma FreshStamp<V>(all: seq<Arg<V>>)
    ensures !WriteFails(Fresh(|all|), all)
    ensures |Stamped(Fresh(|all|), all)| == |all|
    ensures forall i :: 0 <= i < |all| ==> Stamped(Fresh(|all|), all)[i] == Classify(all[i])
  {
  }

  /** Stamping the same arguments twice gives the flags of stamping them once,
      and fails exactly when the first stamping failed. */
  lemma StampIdempotent<V>(flags: seq<Flag>, all: seq<Arg<V>>)
    ensures Stamped(Stamped(flags, all), all) == Stamped(flags, all)
    ensures WriteFails(Stamped(flags, all), all) == WriteFails(flags, all)
  {
  }

  /** A pre-existing list at least as long as the arguments never fails. */
  lemma LongEnoughNeverFails<V>(flags: seq<Flag>, all: seq<Arg<V>>)
    requires |all| <= |flags|
    ensures !WriteFails(flags, all)
  {
  }

  /** A write past the end fails only for a tensor needing a gradient or a
      non-tensor: a stop-gradient tensor past the end is harmless. */
  lemma TrailingStopGradientIsHarmless<V>(flags: seq<Flag>, all: seq<Arg<V>>, extra: seq<Arg<V>>)
    requires |all| <= |flags|
    requires forall j :: 0 <= j < |extra| ==> extra[j].Tensor? && extra[j].stopGradient
    ensures !WriteFails(flags, all + extra)
    ensures Stamped(flags, all + extra)[..|all|] == Stamped(flags, all)[..|all|]
  {
    forall i | |flags| <= i < |all + extra|
      ensures !Writes((all + extra)[i])
    {
      assert (all + extra)[i] == extra[i - |all|];
    }
  }

  // ---------------------------------------------------------------------------
  // Forward phase: the wrapper

  /** `custom_fwd(func)` called as `wrapper(ctx, *positional, **keywords)`.
      The flag list is created only when absent, otherwise updated in place;
      `func` receives the original arguments and its result is returned as is. */
  method CustomFwd<V, R>(func: (seq<Arg<V>>, seq<Arg<V>>) -> R, ctx: Context,
                         positional: seq<Arg<V>>, keywords: seq<Arg<V>>)
    returns (res: Result<R>)
    modifies ctx, ctx.FlagFrame()
    ensures ctx.needsInputGrad.Some?
    ensures old(ctx.needsInputGrad).Some? ==> ctx.needsInputGrad == old(ctx.needsInputGrad)
    ensures old(ctx.needsInputGrad).None? ==> fresh(ctx.needsInputGrad.value)
    ensures ctx.needsInputGrad.value[..]
         == Stamped(old(ctx.FlagsOr(|positional| + |keywords|)), CollectArgs(positional, keywords))
    ensures res == if WriteFails(old(ctx.FlagsOr(|positional| + |keywords|)), CollectArgs(positional, keywords))
                   then Err(IndexError) else Ok(func(positional, keywords))
  {
    var all := CollectArgs(positional, keywords);
    if ctx.needsInputGrad.None? {
      var created := new Flag[|all|](_ => NoGrad);
      ctx.needsInputGrad := Some(created);
    }
    var flags := ctx.needsInputGrad.value;
    ghost var before := flags[..];
    assert before == old(ctx.FlagsOr(|positional| + |keywords|));
    for i := 0 to |all|
      invariant ctx.needsInputGrad == Some(flags)
      invariant flags[..] == Stamped(before, all[..i])
      invariant forall j :: |before| <= j < i ==> !Writes(all[j])
    {
      match all[i]
      case Tensor(_, stopGradient) =>
        if !stopGradient {
          if i >= flags.Length {
            assert Stamped(before, all[..i]) == Stamped(before, all);
            return Err(IndexError);
          }
          flags[i] := Grad;
        }
      case NonTensor(_) =>
        if i >= flags.Length {
          assert Stamped(before, all[..i]) == Stamped(before, all);
          return Err(IndexError);
        }
        flags[i] := NotTensor;
    }
    assert all[..|all|] == all;
    res := Ok(func(positional, keywords));
  }

  // ---------------------------------------------------------------------------
  // Backward phase: specification

  /** What one (gradient, flag) pair contributes: nothing for "not_tensor",
      the gradient for a true flag, `None` for a false one. */
  function Entry<G>(g: Option<G>, f: Flag): (entry: seq<Option<G>>) {
    match f
    case NotTensor => []
    case Grad => [g]
    case NoGrad => [None]
  }

  /** The list the backward loop builds from pairs of equal-length sequences. */
  function Filtered<G>(out: seq<Option<G>>, flags: seq<Flag>): (filtered: seq<Option<G>>)
    requires |out| == |flags|
    decreases |out|
  {
    if |out| == 0 then []
    else Filtered(out[..|out| - 1], flags[..|flags| - 1]) + Entry(out[|out| - 1], flags[|flags| - 1])
  }

  /** The positions not flagged "not_tensor", in increasing order. */
  function KeptIndices(flags: seq<Flag>): (ks: seq<nat>)
    ensures forall k :: 0 <= k < |ks| ==> ks[k] < |flags| && flags[ks[k]] != NotTensor
    ensures forall k, l :: 0 <= k < l < |ks| ==> ks[k] < ks[l]
    decreases |flags|
  {
    if |flags| == 0 then []
    else
      var last := |flags| - 1;
      KeptIndices(flags[..last]) + (if flags[last] != NotTensor then [last] else [])
  }

  /** The result element for a kept position. */
  function Gate<G>(g: Option<G>, f: Flag): (r: Option<G>) {
    if f == Grad then g else None
  }

  /** `s` with its trailing `None`s popped. */
  function StripTrailingNone<G>(s: seq<Option<G>>): (stripped: seq<Option<G>>)
    decreases |s|
  {
    if |s| > 0 && s[|s| - 1].None? then StripTrailingNone(s[..|s| - 1]) else s
  }

  /** The tuple the backward wrapper returns: `zip` stops at the shorter of the
      two sequences, then the pairs are filtered and trailing `None`s popped. */
  function Backward<G>(out: seq<Option<G>>, flags: seq<Flag>): (r: seq<Option<G>>) {
    var n := if |out| <= |flags| then |out| else |flags|;
    StripTrailingNone(Filtered(out[..n], flags[..n]))
  }

  // ---------------------------------------------------------------------------
  // Backward phase: properties

  /** Every position not flagged "not_tensor" is kept, and only those. */
  lemma {:induction false} KeptIndicesComplete(flags: seq<Flag>, i: nat)
    requires i < |flags| && flags[i] != NotTensor
    ensures i in KeptIndices(flags)
    decreases |flags|
  {
    var last := |flags| - 1;
    if i < last {
      KeptIndicesComplete(flags[..last], i);
    }
  }

  /** The filtered list has one element per kept position, in order: the
      gradient where the flag is true and `None` where it is false. */
  lemma {:induction false} FilteredAt<G>(out: seq<Option<G>>, flags: seq<Flag>)
    requires |out| == |flags|
    ensures |Filtered(out, flags)| == |KeptIndices(flags)|
    ensures forall k :: 0 <= k < |KeptIndices(flags)| ==>
              Filtered(out, flags)[k] == Gate(out[KeptIndices(flags)[k]], flags[KeptIndices(flags)[k]])
    decreases |out|
  {
    if |out| > 0 {
      var last := |out| - 1;
      var out', flags' := out[..last], flags[..last];
      FilteredAt(out', flags');
      var ks, ks' := KeptIndices(flags), KeptIndices(flags');
      assert ks == ks' + (if flags[last] != NotTensor then [last] else []);
      forall k | 0 <= k < |ks|
        ensures Filtered(out, flags)[k] == Gate(out[ks[k]], flags[ks[k]])
      {
        if k < |ks'| {
          assert out'[ks'[k]] == out[ks[k]] && flags'[ks'[k]] == flags[ks[k]];
        }
      }
    }
  }

  /** Only positions flagged "not_tensor" disappear: the filtered list is as
      long as the number of other flags. */
  lemma {:induction false} FilteredLength<G>(out: seq<Option<G>>, flags: seq<Flag>)
    requires |out| == |flags|
    ensures |Filtered(out, flags)| == |flags| - multiset(flags)[NotTensor]
    decreases |out|
  {
    if |out| > 0 {
      var last := |out| - 1;
      FilteredLength(out[..last], flags[..last]);
      assert flags == flags[..last] + [flags[last]];
      assert multiset(flags) == multiset(flags[..last]) + multiset{flags[last]};
      assert |Entry(out[last], flags[last])| == if flags[last] == NotTensor then 0 else 1;
    }
  }

  /** Popping trailing `None`s yields a prefix of the input that does not end
      in `None`, and only `None`s were removed. */
  lemma {:induction false} StripTrailingNoneSpec<G>(s: seq<Option<G>>)
    ensures |StripTrailingNone(s)| <= |s|
    ensures StripTrailingNone(s) == s[..|StripTrailingNone(s)|]
    ensures |StripTrailingNone(s)| == 0 || StripTrailingNone(s)[|StripTrailingNone(s)| - 1].Some?
    ensures forall i :: |StripTrailingNone(s)| <= i < |s| ==> s[i].None?
    decreases |s|
  {
    if |s| > 0 && s[|s| - 1].None? {
      var init := s[..|s| - 1];
      StripTrailingNoneSpec(init);
      var r := StripTrailingNone(init);
      assert r == s[..|r|] by {
        assert init[..|r|] == s[..|r|];
      }
      forall i | |r| <= i < |s|
        ensures s[i].None?
      {
        if i < |s| - 1 {
          assert s[i] == init[i];
        }
      }
    }
  }

  /** The three facts of StripTrailingNoneSpec pin the result down: any prefix
      of `s` that does not end in `None` and leaves only `None`s behind is it. */
  lemma StripTrailingNoneUnique<G>(s: seq<Option<G>>, r: seq<Option<G>>)
    requires |r| <= |s| && r == s[..|r|]
    requires |r| == 0 || r[|r| - 1].Some?
    requires forall i :: |r| <= i < |s| ==> s[i].None?
    ensures r == StripTrailingNone(s)
  {
    StripTrailingNoneSpec(s);
  }

  /** The positions kept from a prefix of the flags are a prefix of the
      positions kept from all of them. */
  lemma {:induction false} KeptIndicesPrefix(flags: seq<Flag>, n: nat)
    requires n <= |flags|
    ensures KeptIndices(flags[..n]) <= KeptIndices(flags)
    decreases |flags|
  {
    if n < |flags| {
      var last := |flags| - 1;
      KeptIndicesPrefix(flags[..last], n);
      assert flags[..last][..n] == flags[..n];
    } else {
      assert flags[..n] == flags;
    }
  }

  /** Gradients past the end of the flag list are ignored (the `zip` truncation). */
  lemma BackwardIgnoresExcess<G>(out: seq<Option<G>>, extra: seq<Option<G>>, flags: seq<Flag>)
    requires |flags| <= |out|
    ensures Backward(out + extra, flags) == Backward(out, flags)
  {
    assert (out + extra)[..|flags|] == out[..|flags|];
  }

  /** The backward result, element by element: the k-th element comes from
      the k-th position not flagged "not_tensor", and is its gradient when the
      flag is true and `None` when it is false. */
  lemma BackwardAt<G>(out: seq<Option<G>>, flags: seq<Flag>)
    ensures |Backward(out, flags)| <= |KeptIndices(flags)|
    ensures forall k :: 0 <= k < |Backward(out, flags)| ==>
              && KeptIndices(flags)[k] < |out|
              && Backward(out, flags)[k] == Gate(out[KeptIndices(flags)[k]], flags[KeptIndices(flags)[k]])
  {
    var n := if |out| <= |flags| then |out| else |flags|;
    var out', flags' := out[..n], flags[..n];
    FilteredAt(out', flags');
    StripTrailingNoneSpec(Filtered(out', flags'));
    KeptIndicesPrefix(flags, n);
    var ks, ks' := KeptIndices(flags), KeptIndices(flags');
    forall k | 0 <= k < |ks'|
      ensures ks[k] == ks'[k] < |out| && out'[ks'[k]] == out[ks[k]] && flags'[ks'[k]] == flags[ks[k]]
    {
      assert ks[k] == ks'[k];
    }
  }

  /** On a fresh context the positions the backward wrapper keeps are exactly
      those of the tensor arguments. */
  lemma FreshKeepsTensors<V>(all: seq<Arg<V>>, i: nat)
    requires i < |all|
    ensures i in KeptIndices(Stamped(Fresh(|all|), all)) <==> all[i].Tensor?
  {
    var flags := Stamped(Fresh(|all|), all);
    FreshStamp(all);
    if all[i].Tensor? {
      KeptIndicesComplete(flags, i);
    }
  }

  /** After a forward call on a fresh context, the k-th returned element
      belongs to the k-th tensor argument: its gradient if that tensor needs
      one, `None` otherwise. Gradients are paired with arguments by position,
      however many the backward function returns. */
  lemma FreshRoundTrip<V, G>(all: seq<Arg<V>>, out: seq<Option<G>>, k: nat)
    requires k < |Backward(out, Stamped(Fresh(|all|), all))|
    ensures k < |KeptIndices(Stamped(Fresh(|all|), all))|
    ensures var i := KeptIndices(Stamped(Fresh(|all|), all))[k];
            && i < |all| && i < |out| && all[i].Tensor?
            && Backward(out, Stamped(Fresh(|all|), all))[k] == if all[i].stopGradient then None else out[i]
  {
    var flags := Stamped(Fresh(|all|), all);
    BackwardAt(out, flags);
    FreshStamp(all);
  }

  /** Fewer gradients than flags are still paired by position: a backward
      function that leaves out a leading non-tensor input loses the tensor's
      gradient to the "not_tensor" flag, and nothing signals it. */
  lemma ShortOutputPairsByPosition<G>(g: G)
    ensures Backward([Some(g)], [NotTensor, Grad]) == []
  {
    assert [Some(g)][..1] == [Some(g)] && [NotTensor, Grad][..1] == [NotTensor];
    assert [Some(g)][..0] == [] && [NotTensor][..0] == [];
    assert Filtered([Some(g)], [NotTensor]) == [];
  }

  /** The scenario of a tensor needing a gradient, an integer and a
      stop-gradient tensor: flags `[True, "not_tensor", False]`, and the
      backward result keeps the first gradient only. */
  lemma ScenarioTensorIntTensor<V, G>(a: V, five: V, b: V, ga: G, gi: G, gb: G)
    ensures Stamped(Fresh(3), [Tensor(a, false), NonTensor(five), Tensor(b, true)]) == [Grad, NotTensor, NoGrad]
    ensures Backward([Some(ga), Some(gi), Some(gb)], [Grad, NotTensor, NoGrad]) == [Some(ga)]
  {
    var out := [Some(ga), Some(gi), Some(gb)];
    var flags := [Grad, NotTensor, NoGrad];
    assert out[..3] == out && flags[..3] == flags;
    assert out[..2] == [Some(ga), Some(gi)] && flags[..2] == [Grad, NotTensor];
    assert out[..2][..1] == [Some(ga)] && flags[..2][..1] == [Grad];
    assert Filtered(out[..2][..1], flags[..2][..1]) == [Some(ga)];
    assert Filtered(out, flags) == [Some(ga), None];
    assert [Some(ga), None][..1] == [Some(ga)];
    assert StripTrailingNone([Some(ga), None]) == StripTrailingNone([Some(ga)]) == [Some(ga)];
  }

  // ---------------------------------------------------------------------------
  // Backward phase: the wrapper

  /** `custom_bwd(func)` called as `wrapper(ctx, *args)`: calls `func`, pairs
      its gradients with the recorded flags and returns the filtered tuple. */
  method CustomBwd<A, G>(func: A -> seq<Option<G>>, ctx: Context, args: A)
    returns (res: Result<seq<Option<G>>>)
    ensures ctx.needsInputGrad.None? ==> res == Err(AttributeError)
    ensures ctx.needsInputGrad.Some? ==> res == Ok(Backward(func(args), ctx.needsInputGrad.value[..]))
    ensures res.Ok? ==> |res.value| == 0 || res.value[|res.value| - 1].Some?
  {
    var output := func(args);
    if ctx.needsInputGrad.None? {
      return Err(AttributeError);
    }
    var flags := ctx.needsInputGrad.value;
    var n := if |output| <= flags.Length then |output| else flags.Length;
    var result := [];
    for i := 0 to n
      invariant result == Filtered(output[..i], flags[..i])
    {
      assert output[..i + 1][..i] == output[..i] && flags[..i + 1][..i] == flags[..i];
      if flags[i] == NotTensor {
        continue;
      }
      if flags[i] == Grad {
        result := result + [output[i]];
      } else {
        result := result + [None];
      }
    }
    ghost var filtered := result;
    while |result| > 0 && result[|result| - 1].None?
      invariant StripTrailingNone(result) == StripTrailingNone(filtered)
      decreases |result|
    {
      result := result[..|result| - 1];
    }
    StripTrailingNoneSpec(filtered);
    res := Ok(result);
  }
}
