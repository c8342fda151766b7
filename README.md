# Gradient-flag bookkeeping of `custom_fwd` / `custom_bwd`

PaddleNLP's kernel package defines two decorators for custom differentiable
operators. `custom_fwd` wraps an operator's forward function. It records on the
operator's context object a list `needs_input_grad` with one entry per input:
the positional arguments after the context, then the keyword values in
insertion order. An entry is `True` for a tensor whose `stop_gradient` is
false and `"not_tensor"` for anything that is not a tensor. For a tensor whose
`stop_gradient` is true, the entry is left as it was. A fresh list starts as
all `False`. `custom_bwd` wraps the backward function. It pairs the returned
gradients with those flags, stopping at the shorter of the two sequences. It
drops the `"not_tensor"` positions, keeps the gradient where the flag is true
and puts `None` where it is false. It then pops the trailing `None`s and
returns a tuple.

The project is one Dafny module, `KernelUtils` in `kernel_utils.dfy`:

- `Flag = Grad | NoGrad | NotTensor` stands for `True`, `False` and
  `"not_tensor"`.
- `Arg = Tensor(data, stopGradient) | NonTensor(data)` stands for an argument.
  The payload `data` is opaque.
- `Option` stands for "`None` or some Python object".
- `Result` carries the two exceptions the wrappers raise themselves.
  `IndexError` is raised when a flag is written past the end of a pre-existing
  list. `AttributeError` is raised when the backward wrapper finds no list.
- `Context` is a class. Its field `needsInputGrad: Option<array<Flag>>` is
  `None` while the attribute is absent. The array is the list, updated in place
  and never replaced.
- `CustomFwd` and `CustomBwd` are methods with the source's loops.
  `CustomFwd` is proved against the specification functions `Stamped` and
  `WriteFails`. `CustomBwd` is proved against `Filtered`, `StripTrailingNone`
  and `Backward`. The lemmas state the properties of those functions, some of
  them through `KeptIndices`, the positions not flagged `"not_tensor"`.

The wrapped forward and backward functions are parameters: Dafny functions of
the call's arguments.

## Model

| member | source | states |
|---|---|---|
| KernelUtils.CollectArgs | ops/src/paddlenlp_kernel/utils.py:24-28 | the examined arguments are the positional ones after the context followed by the keyword values, one entry each; a call with only the context gives the keyword values alone |
| KernelUtils.StampedEntries | ops/src/paddlenlp_kernel/utils.py:32-37 | after the forward loop a tensor needing a gradient has `True`, a non-tensor `"not_tensor"`, a stop-gradient tensor keeps its previous entry, and entries past the arguments are untouched; the list keeps its length |
| KernelUtils.FreshStamp | ops/src/paddlenlp_kernel/utils.py:30-37 | on a context without a list the new list has exactly one entry per argument, `True` / `False` / `"not_tensor"` by the argument alone, and no write fails |
| KernelUtils.StampIdempotent | ops/src/paddlenlp_kernel/utils.py:30-37 | running the forward stamping twice with the same arguments leaves the flags of one run, and fails exactly when one run fails |
| KernelUtils.LongEnoughNeverFails | ops/src/paddlenlp_kernel/utils.py:32-37 | a pre-existing list at least as long as the arguments never raises `IndexError` |
| KernelUtils.TrailingStopGradientIsHarmless | ops/src/paddlenlp_kernel/utils.py:33-35 | stop-gradient tensors past the end of a pre-existing list cause no write and so no `IndexError`, and leave the earlier entries as they were |
| KernelUtils.CustomFwd | ops/src/paddlenlp_kernel/utils.py:22-40 | the list is created (fresh, all `False`, one per argument) only when absent, otherwise the same list is updated in place; its new contents are the stamped flags; the result is `IndexError` exactly when some write lands past the end of a pre-existing list, otherwise the wrapped function's result on the original arguments |
| KernelUtils.KeptIndices | ops/src/paddlenlp_kernel/utils.py:48-50 | the positions the backward loop keeps are in range, strictly increasing, and none is flagged `"not_tensor"` |
| KernelUtils.KeptIndicesComplete | ops/src/paddlenlp_kernel/utils.py:48-50 | every position not flagged `"not_tensor"` is kept |
| KernelUtils.FilteredAt | ops/src/paddlenlp_kernel/utils.py:48-54 | the filtered list has one element per kept position, in order: the gradient where the flag is true, `None` where it is false |
| KernelUtils.FilteredLength | ops/src/paddlenlp_kernel/utils.py:48-54 | the filtered list is shorter than the paired input by exactly the number of `"not_tensor"` flags |
| KernelUtils.StripTrailingNoneSpec | ops/src/paddlenlp_kernel/utils.py:55-56 | popping trailing `None`s yields a prefix of the list that is empty or ends in a non-`None` element, and everything removed is `None` (interior `None`s stay) |
| KernelUtils.StripTrailingNoneUnique | ops/src/paddlenlp_kernel/utils.py:55-56 | those three facts determine the result: any prefix with them is the popped list |
| KernelUtils.KeptIndicesPrefix | ops/src/paddlenlp_kernel/utils.py:48-50 | the positions kept from a prefix of the flags are a prefix of those kept from all the flags |
| KernelUtils.BackwardAt | ops/src/paddlenlp_kernel/utils.py:48-57 | for gradient and flag sequences of any lengths, the k-th element of the returned tuple comes from the k-th position not flagged `"not_tensor"`, which lies within the gradients, as its gradient or `None`; the tuple is no longer than the kept positions |
| KernelUtils.ShortOutputPairsByPosition | ops/src/paddlenlp_kernel/utils.py:48-57 | with fewer gradients than flags, pairing stays by position: one gradient against flags `["not_tensor", True]` returns the empty tuple |
| KernelUtils.BackwardIgnoresExcess | ops/src/paddlenlp_kernel/utils.py:48 | gradients beyond the length of the flag list do not affect the result (`zip` truncation) |
| KernelUtils.FreshKeepsTensors | ops/src/paddlenlp_kernel/utils.py:30-50 | after a forward call on a fresh context, the backward wrapper keeps exactly the positions of tensor arguments |
| KernelUtils.FreshRoundTrip | ops/src/paddlenlp_kernel/utils.py:22-57 | after a forward call on a fresh context, however many gradients the backward function returns, the k-th returned element belongs to the k-th tensor argument, whose position lies within the gradients: its gradient if it needs one, `None` if it is stop-gradient |
| KernelUtils.ScenarioTensorIntTensor | ops/src/paddlenlp_kernel/utils.py:30-57 | (tensor needing a gradient, an integer, stop-gradient tensor) gives flags `[True, "not_tensor", False]`, and gradients `(a, b, c)` come back as `(a,)` |
| KernelUtils.CustomBwd | ops/src/paddlenlp_kernel/utils.py:43-59 | `AttributeError` when the context has no list; otherwise the result is `Backward` of the wrapped function's output and the flags (truncate, filter, pop trailing `None`s), and it never ends in `None` |

## Left out

- `compare_version` (ops/src/paddlenlp_kernel/utils.py:62-68) is not modelled. It rests on a dynamic module import and on the version parsing and ordering of the `packaging` library, which is not part of this model.
- `is_autocast_enabled` and `get_autocast_gpu_dtype` (ops/src/paddlenlp_kernel/utils.py:71-79) are not modelled. They only read Paddle's global tracer and mixed-precision state.
- Paddle's tensor type and autograd are reduced to "is a tensor" and its `stop_gradient` flag.
- The wrapped functions are pure functions of the call's arguments. The model does not pass them the context. So it captures neither their reads of the flags nor their own changes to the context, and not the exceptions they raise.
- The context object always exists. The source's `args[0]` on a call without any positional argument (an `IndexError` before any flag work) is not modelled.
- Keyword names are not modelled, only the keyword values in insertion order.
- A pre-existing `needs_input_grad` list holding values other than `True`, `False` and `"not_tensor"` is not modelled. The backward wrapper would treat a truthy one like `True` and a falsy one like `False`.
- When the forward wrapper raises `IndexError`, the model keeps the writes made before the failing position, as the source does. The failing position is always past the end of the list, so the final flags are the same as without the error.
- The gradient sequence is a Dafny sequence. Other iterables that `zip` accepts are not modelled.
