# tensor_utils: a verified model

This project models the value-level logic of
`tensorflow_federated/python/tensorflow_libs/tensor_utils.py`, a set of
helpers that a federated-learning library uses on nested structures of
tensors:

- `check_nested_equal` compares two nested structures: first their nesting,
  then the flattened leaves pairwise under a caller-supplied `eq`.
- `to_var_dict` turns a list of variables into an ordered dictionary keyed
  by variable name without the `":0"` output-slot suffix. It keeps input order
  and rejects badly named and duplicate variables.
- `to_odict` returns an `OrderedDict` unchanged and turns a plain `dict`
  with string keys into one sorted by key.
- `zero_all_if_any_non_finite` returns the structure and flag 0 when every
  leaf is finite (or there are no leaves). Otherwise it zeroes every leaf and
  returns flag 1.
- `is_scalar` tests whether every dimension of a tensor's shape is 1.
- `same_dimension` and `same_shape` compare dimensions and shapes whose
  sizes or rank may be unknown.

Files:

- `wrappers.dfy` (module `Wrappers`): `Option`, `Result` and `Outcome`.
  They stand for Python's `None` and for raised errors.
- `nest.dfy` (module `Nest`): its own nested datatype,
  `Leaf(value) | Node(children)`. It stands in for the structures of
  TensorFlow's `nest` library. `Flatten` visits the leaves left to right.
  `SameStructure` stands for `nest.assert_same_structure` and `MapStructure`
  for `nest.map_structure`.
- `lex_order.dfy` (module `LexOrder`): Python's `<` on strings, which is
  lexicographic by code point with a proper prefix first. It is proved to be a
  strict total order.
- `tensor_utils.dfy` (module `TensorUtils`): the functions of the file.

How each part is modelled:

- Tensors are a type parameter `T`.
- The per-leaf test `tf.reduce_all(tf.is_finite(t))` is a parameter
  `finite: T -> bool`. `tf.zeros_like` is a parameter `zerosLike: T -> T`.
- A dimension is `Option<nat>`, where `None` means unknown.
- A shape is `Option<seq<Option<nat>>>`, where `None` means unknown rank.
- Ordered dictionaries are association lists, `seq<(key, value)>`.
- The loops of `check_nested_equal`, `to_var_dict` and `to_odict` are
  methods with loop invariants.
- The rest are functions.

## Model

| member | source | states |
|---|---|---|
| `Nest.SameStructureFlattenLength` | tensorflow_federated/python/tensorflow_libs/tensor_utils.py:49-52 | structures that pass the structure check have equally many leaves, so `zip` pairs every leaf |
| `Nest.SameStructureReflexive` | tensorflow_federated/python/tensorflow_libs/tensor_utils.py:49 | every structure has the same structure as itself |
| `Nest.SameStructureSymmetric` | tensorflow_federated/python/tensorflow_libs/tensor_utils.py:49 | the structure check does not depend on argument order |
| `Nest.SameStructureTransitive` | tensorflow_federated/python/tensorflow_libs/tensor_utils.py:49 | the structure check is transitive |
| `Nest.MapStructureSameStructure` | tensorflow_federated/python/tensorflow_libs/tensor_utils.py:124 | `map_structure` keeps the nesting of its input |
| `Nest.FlattenMapStructure` | tensorflow_federated/python/tensorflow_libs/tensor_utils.py:114-124 | the leaves of `map_structure(f, s)` are `f` of the leaves of `s`, position by position |
| `TensorUtils.CheckNestedEqual` | tensorflow_federated/python/tensorflow_libs/tensor_utils.py:33-54 | it fails with StructureMismatch exactly when the structures differ; otherwise it passes iff `eq` holds at every flattened position, and a ValueMismatch carries the pair at the first position where `eq` fails |
| `TensorUtils.LastTwo` | tensorflow_federated/python/tensorflow_libs/tensor_utils.py:77 | Python's `name[-2:]`: the last two characters, or the whole of a shorter name |
| `TensorUtils.DropLastTwo` | tensorflow_federated/python/tensorflow_libs/tensor_utils.py:79 | Python's `name[:-2]`: all but the last two characters, empty for a shorter name |
| `TensorUtils.HasSlotSuffix` | tensorflow_federated/python/tensorflow_libs/tensor_utils.py:77-78 | the test that lets a variable through: `name[-2:] == ':0'` |
| `TensorUtils.SplitLastTwo` | tensorflow_federated/python/tensorflow_libs/tensor_utils.py:77-79 | `name[-2:]` has min(2, len(name)) characters, and `name[:-2]` followed by `name[-2:]` gives the name back |
| `TensorUtils.SlotSuffixExactly` | tensorflow_federated/python/tensorflow_libs/tensor_utils.py:77-79 | the suffix test accepts exactly the names `base + ":0"`, and stripping them gives `base` |
| `TensorUtils.LookupMissing` | tensorflow_federated/python/tensorflow_libs/tensor_utils.py:85 | looking up a key in the ordered dictionary finds nothing iff no entry has that key |
| `TensorUtils.LookupDistinct` | tensorflow_federated/python/tensorflow_libs/tensor_utils.py:85 | with distinct keys, looking up the key of an entry finds that entry's value |
| `TensorUtils.ToVarDict` | tensorflow_federated/python/tensorflow_libs/tensor_utils.py:58-85 | succeeds iff every name ends in ":0" and the stripped names are distinct; then one entry per variable in input order, keyed by the name without ":0", with distinct keys, each key finding its variable; otherwise UnexpectedName of the first unsuffixed name, or DuplicateName of the first repeated stripped name, with every earlier variable valid |
| `TensorUtils.InsertByKey` | tensorflow_federated/python/tensorflow_libs/tensor_utils.py:97 | inserting into a strictly key-sorted list keeps it strictly sorted and adds exactly the one entry |
| `TensorUtils.SortByKey` | tensorflow_federated/python/tensorflow_libs/tensor_utils.py:97 | `sorted` on entries with distinct string keys gives a permutation in strictly ascending key order |
| `TensorUtils.SortByKeyExample` | tensorflow_federated/python/tensorflow_libs/tensor_utils.py:97 | the entries of `{"b": 2, "a": 1}` sort to `[("a", 1), ("b", 2)]` |
| `TensorUtils.StrictlySortedUnique` | tensorflow_federated/python/tensorflow_libs/tensor_utils.py:93-97 | two strictly sorted lists with the same entries are equal, so the result does not depend on the order the dict is iterated in |
| `TensorUtils.KeysCountEntries` | tensorflow_federated/python/tensorflow_libs/tensor_utils.py:93-97 | the sorted list has exactly one entry per dictionary key |
| `TensorUtils.ToODict` | tensorflow_federated/python/tensorflow_libs/tensor_utils.py:88-97 | an OrderedDict is returned unchanged; a non-dict is an error; a dict with a non-string key is an error; otherwise the result holds exactly the dict's entries, one per key, in strictly ascending key order |
| `LexOrder.StrLess` | tensorflow_federated/python/tensorflow_libs/tensor_utils.py:97 | Python's `<` on `str`, the order `sorted` uses on the keys |
| `LexOrder.StrLessClosedForm` | tensorflow_federated/python/tensorflow_libs/tensor_utils.py:97 | the string order used by `sorted` is: a proper prefix first, or a smaller code point at the first difference |
| `LexOrder.StrLessIrreflexive` | tensorflow_federated/python/tensorflow_libs/tensor_utils.py:97 | no string sorts before itself |
| `LexOrder.StrLessTransitive` | tensorflow_federated/python/tensorflow_libs/tensor_utils.py:97 | the string order is transitive |
| `LexOrder.StrLessTotal` | tensorflow_federated/python/tensorflow_libs/tensor_utils.py:97 | any two different strings are ordered one way or the other |
| `LexOrder.StrLessAsymmetric` | tensorflow_federated/python/tensorflow_libs/tensor_utils.py:97 | two strings are never each before the other |
| `TensorUtils.ReduceAnd` | tensorflow_federated/python/tensorflow_libs/tensor_utils.py:117-118 | `functools.reduce(tf.logical_and, bs)` on a non-empty list is true iff every element is |
| `TensorUtils.ZeroAllIfAnyNonFinite` | tensorflow_federated/python/tensorflow_libs/tensor_utils.py:103-126 | an empty structure gives (structure, 0); the flag is 0 or 1, and 1 iff some leaf is not finite; flag 0 returns the structure itself, flag 1 returns `map_structure(zeros_like, structure)` |
| `TensorUtils.ZeroedKeepsShape` | tensorflow_federated/python/tensorflow_libs/tensor_utils.py:120-126 | either result has the input's structure; when zeroed, each leaf is `zeros_like` of the input leaf at the same position, otherwise the leaves are unchanged |
| `TensorUtils.SameDimension` | tensorflow_federated/python/tensorflow_libs/tensor_utils.py:171-185 | `same_dimension` holds exactly when the two dimensions are equal: both unknown, or both known with the same value |
| `TensorUtils.SameDimensionLaws` | tensorflow_federated/python/tensorflow_libs/tensor_utils.py:171-185 | two unknowns are the same; a known and an unknown never are; two knowns are iff their values are equal; the relation is equality, so reflexive, symmetric and transitive |
| `TensorUtils.AllSameDimension` | tensorflow_federated/python/tensorflow_libs/tensor_utils.py:204-205 | `all(same_dimension(a, b) for a, b in zip(xs, ys))` is true iff every position that `zip` reaches is the same dimension |
| `TensorUtils.SameShape` | tensorflow_federated/python/tensorflow_libs/tensor_utils.py:188-205 | `same_shape` holds exactly when the two shapes are equal: same rank, both unknown or equal dimension by dimension |
| `TensorUtils.SameDimensionsEqual` | tensorflow_federated/python/tensorflow_libs/tensor_utils.py:204-205 | on two dimension lists of one length, `all(same_dimension(a, b) for a, b in zip(xs, ys))` is equality of the lists |
| `TensorUtils.SameShapeLaws` | tensorflow_federated/python/tensorflow_libs/tensor_utils.py:188-205 | different ranks are never the same; two unknown ranks are; for equal known ranks it holds iff `same_dimension` holds at every position; the relation is equality, so reflexive, symmetric and transitive |
| `TensorUtils.AllDimsOne` | tensorflow_federated/python/tensorflow_libs/tensor_utils.py:145 | `all(dim == 1 for dim in dims)` is true iff every dimension is known and equal to 1 (vacuously true for rank 0) |
| `TensorUtils.IsScalar` | tensorflow_federated/python/tensorflow_libs/tensor_utils.py:129-145 | a non-tensor is a TypeError; a shape of unknown rank is a ValueError; otherwise true iff the tensor has a shape and every dimension is 1 |

## Left out

- `metrics_sum` (lines 148-168) is not modelled. It creates a TensorFlow
  graph variable and an `assign_add` op. That is session and graph state
  inside TensorFlow, not logic in this file.
- Floating point is not modelled. `tf.is_finite` with `tf.reduce_all`, and
  `tf.zeros_like`, are the abstract parameters `finite` and `zerosLike`.
- Deferred execution is not modelled: `tf.cond` and the
  `@tf.contrib.eager.function` wrapper. The model builds both branches as
  values and picks one by the predicate.
- TensorFlow's `nest` library is replaced by a nested datatype with one
  ordered container kind. Not modelled:
  - keyed containers and the sorted-key order in which `nest` flattens dicts;
  - the container-type check of `assert_same_structure` (a list against a
    tuple);
  - the exact set of types `nest` treats as containers.
- The runtime type checks against TensorFlow classes are not modelled. These
  are the `tf.Variable` check in `to_var_dict` and `is_tensor` in
  `is_scalar`. The variable list is typed, and a non-tensor is a constructor
  of the argument type of `IsScalar`.
- Error message texts are not modelled. An error is the variant it raises,
  with the name it reports where the source puts one in the message.
- `eq`, `finite` and `zerosLike` are total functions without side effects. A
  raising or side-effecting `eq_fn` is not modelled.
- TensorFlow's `Dimension` and `TensorShape` are not modelled; their
  behaviour is assumed here:
  - `Dimension(None)` and a missing dimension are both `None`;
  - `Dimension(None) == 1` is falsy in `is_scalar`;
  - iterating a `TensorShape` of unknown rank raises `ValueError` (the
    `UnknownRankError` case of `IsScalar`);
  - `ndims` is unknown exactly when `dims` is.
- The iteration order of a plain `dict` is not modelled. `to_odict` reads
  keys in an arbitrary order. `StrictlySortedUnique` shows that the result
  does not depend on that order.
- ToODict: the NonStringKey error does not say which key it was. With more
  than one non-string key, which one Python reports depends on dict order.
- Python 2 string types other than `str` are not distinguished: a key is
  either a string or some other value.
- The default `eq_fn=operator.eq` is not modelled as a default. `eq` is
  always passed; passing `(a, b) => a == b` gives the default behaviour.
- Dimensions: a missing dimension (Python `None`) and `Dimension(None)` are
  both `None` in the model. In the source they differ: because of the
  `x is None` and `y is not None` tests, `same_dimension` of a `None` and a
  `Dimension(None)`, in either order, is False, while the model says true.
