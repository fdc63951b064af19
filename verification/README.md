# Relational design theory: dependencies, closure and keys

This project models the core of a small normalisation library for relational design theory.

The library has two parts:

- **Components.** Attributes and dependencies, and the relvars (relation variables) that carry them.
  - A functional dependency is written `{A, B} -> {C}` and a multivalued one `{A} ->-> {B}`.
  - Each is decoded from that text notation and rendered back into it.
  - A relvar is a heading of attributes plus a set of functional and a set of multivalued
    dependencies. It refuses any dependency that mentions an attribute outside its heading.
- **The dependency algebra.** Built on functional dependencies:
  - the closure of an attribute set, computed as a fixed point;
  - the superkey test (the closure is the whole heading);
  - the key test (a superkey from which no single attribute can be removed).

Modules:

- `Strings` (`strings.dfy`) holds the Python string built-ins the decoder relies on: removing
  spaces, `strip`, `split` and `join`. Their laws are proved there, for example that joining a
  split gives back the string.
- `Components` (`components.dfy`) models `normalization/components.py`:
  - `Attribute`, `Dependency` (with a `Kind`) and the two exceptions (`Error`) are datatypes.
  - The regular expressions become a hand-written recogniser `Matches`. It is proved equal to a
    grammar stated as a decomposition (`InGrammar`).
  - Decoding is `Parse`, which validates the text against the grammar and returns a `Result`.
    Rendering is `Render`.
  - The relvar is a class `Relvar` whose methods update its fields in place.
- `Algorithms` (`algorithms.dfy`) models `normalization/algorithms.py`:
  - The closure loop is the method `ComputeClosure`. It is proved to return the least-fixed-point
    function `Closure`.
  - `Closure` is proved to be the least closed superset, monotone, idempotent, and independent
    of the order and repetition of the dependencies.
  - `IsSuperkey` is characterised as "the heading is the least closed superset".
  - The key test `IsKey` is proved to decide full minimality.
- `Example` (`example.dfy`) is the invoicing relvar of `example.py`:
  - its seven textual dependencies decode to the expected values;
  - the relvar is accepted;
  - `{FolioP, Producto, RegimenC}` is a key, and `{RFC}` is not a superkey.

Testing each single-attribute removal against the original set decides full minimality
(`Algorithms.SingleRemovalSuffices`). Suppose some proper subset `sub` of a superkey `S` were a
superkey, and pick an attribute `a` of `S` missing from `sub`. Then `sub ⊆ S − {a} ⊆ S`, and the
closure is monotone. So the closure of `S − {a}` lies between the closure of `sub` and the closure
of `S`, and both of those are the heading. Hence `S − {a}` is itself a superkey.

## Model

| member | source | states |
|---|---|---|
| Strings.RemoveSpaces | db-tarea3/normalization/components.py:34 | the result has no space, is no longer than the input, and is the input itself when it had no space |
| Strings.RemoveSpacesCounts | db-tarea3/normalization/components.py:34 | every character other than a space keeps its number of occurrences, and the length falls by exactly the number of spaces |
| Strings.RemoveSpacesAppend | db-tarea3/normalization/components.py:34 | removing spaces distributes over concatenation |
| Strings.Strip | db-tarea3/normalization/components.py:60 | what remains neither starts nor ends with a strip character, is no longer than the input, and is the input itself when it holds no strip character |
| Strings.StripKeepsMiddle | db-tarea3/normalization/components.py:60 | only a leading run and a trailing run of strip characters are removed; the result is the untouched middle of the input between them |
| Strings.Split | db-tarea3/normalization/components.py:41 | there is always at least one piece; joining the pieces gives back the string (JoinSplit) |
| Strings.Join | db-tarea3/normalization/components.py:46-47 | `sep.join` is undone by `split` when no piece holds the separator's first character (SplitJoin), and it undoes `split` (JoinSplit) |
| Strings.StripEnclosed | db-tarea3/normalization/components.py:60 | stripping braces from `{names}` gives back the names when they neither start nor end with a brace |
| Strings.JoinSplit | db-tarea3/normalization/components.py:41 | joining the pieces of a split with the same separator gives back the string |
| Strings.SplitJoin | db-tarea3/normalization/components.py:62 | splitting a join gives back the pieces when no piece holds the separator's first character |
| Components.NameRun | db-tarea3/normalization/components.py:77 | the run of `[A-z]` characters at the start of a string is maximal |
| Components.Matches | db-tarea3/normalization/components.py:77-88 | an accepted string opens with `{`, closes with `}` and is long enough for two brace lists and the separator; it decides exactly the grammar (MatchesGrammar) |
| Components.MatchedComposes | db-tarea3/normalization/components.py:77 | every accepted string is composed from two name lists and the kind's separator |
| Components.MatchesGrammar | db-tarea3/normalization/components.py:53-55 | the recogniser accepts exactly the strings `{L}->{L}` (or `{L}->->{L}`) with L a comma-separated list of `[A-z]+` names |
| Components.ComposedMatches | db-tarea3/normalization/components.py:77 | every expression composed from two name lists and the kind's separator is recognised |
| Components.GrammarsDisjoint | db-tarea3/normalization/components.py:77-88 | no string matches both the functional and the multivalued pattern |
| Components.NameListIsJoin | db-tarea3/normalization/components.py:77 | `[A-z]+(?:,[A-z]+)*` matches exactly the comma-joins of one or more `[A-z]+` names |
| Components.IsExpressionValid | db-tarea3/normalization/components.py:53-55 | an expression is valid exactly when its space-free form is in the kind's grammar |
| Components.AttributesNamed | db-tarea3/normalization/components.py:62 | an attribute is in the set exactly when its name is in the list |
| Components.SetFromExpression | db-tarea3/normalization/components.py:57-62 | reading a side always yields at least one attribute |
| Components.BraceListSet | db-tarea3/normalization/components.py:57-62 | a brace list decodes to the non-empty set of attributes named in it, every name matching `[A-z]+` |
| Components.SplitMatched | db-tarea3/normalization/components.py:41 | splitting a recognised expression at the separator gives exactly two parts, the two brace lists, so the two-way unpacking never fails |
| Components.Parse | db-tarea3/normalization/components.py:28-43 | decoding succeeds exactly on valid expressions; otherwise it fails with InvalidExpression; on success it keeps the kind and both sides are non-empty |
| Components.ParseComposed | db-tarea3/normalization/components.py:28-43 | a grammatical expression decodes to the dependency of that kind whose sides are the attributes named in each list |
| Components.ParseAccepts | db-tarea3/normalization/components.py:33-43 | decoding succeeds exactly on expressions whose space-free form is grammatical; otherwise it fails with InvalidExpression; on success the kind is kept and both sides are non-empty sets of valid names |
| Components.SameCleanedSameParse | db-tarea3/normalization/components.py:34 | two expressions equal up to spaces decode alike |
| Components.SpacesIgnored | db-tarea3/normalization/components.py:34 | inserting a space anywhere does not change the decoded result |
| Components.SameNamesSameParse | db-tarea3/normalization/components.py:57-62 | two grammatical expressions naming the same attributes on each side decode alike, whatever the order or repetition of the names |
| Components.RepeatedNameCollapses | db-tarea3/normalization/components.py:62 | repeating at the front of a list a name it already holds gives a name list naming the same attributes |
| Components.Render | db-tarea3/normalization/components.py:45-48 | the text opens with `{` and closes with `}`; decoding it gives back the dependency (RoundTrip) |
| Components.RoundTrip | db-tarea3/normalization/components.py:45-48 | decoding the rendering of a well-formed dependency, listed in any order, gives back the same dependency |
| Components.Relvar.Empty | db-tarea3/normalization/components.py:97-100 | the heading is the set of attributes named by the list, with no dependencies, and the relvar is valid |
| Components.Relvar.Create | db-tarea3/normalization/components.py:97-108 | construction succeeds exactly when every dependency lies within the heading; it then holds all of them and is valid; otherwise it fails with InvalidDependency naming an attribute outside the heading that belongs to the first dependency, functional ones before multivalued ones, not within the heading |
| Components.Relvar.ValidateDependency | db-tarea3/normalization/components.py:116-119 | passes exactly when every attribute of the dependency is in the heading; a failure names an attribute of the dependency missing from the heading |
| Components.Relvar.AddFunctionalDependency | db-tarea3/normalization/components.py:121-133 | a dependency within the heading is appended to the functional dependencies; otherwise nothing changes and InvalidDependency is reported; validity is preserved |
| Components.Relvar.AddMultivaluedDependency | db-tarea3/normalization/components.py:135-147 | same as the functional case, for the multivalued dependencies |
| Algorithms.Closure | db-tarea3/normalization/algorithms.py:4-17 | the closure contains the attributes, adds only attributes some dependency names as dependant, and is closed under every dependency |
| Algorithms.ClosureLeast | db-tarea3/normalization/algorithms.py:4-17 | every closed superset of the attributes contains the closure |
| Algorithms.ClosureMonotone | db-tarea3/normalization/algorithms.py:4-17 | a larger attribute set has a larger closure |
| Algorithms.ClosureIdempotent | db-tarea3/normalization/algorithms.py:4-17 | the closure of a closure is itself |
| Algorithms.ClosureOrderIndependent | db-tarea3/normalization/algorithms.py:10 | the closure depends only on which dependencies occur, not on their order or repetition |
| Algorithms.ClosureWithinHeading | db-tarea3/normalization/algorithms.py:4-17 | with every dependency within a heading, the closure of part of the heading stays in the heading |
| Algorithms.RelvarClosureWithinHeading | db-tarea3/normalization/components.py:116-119 | in a valid relvar, the closure of part of the heading under its functional dependencies stays inside the heading |
| Algorithms.ComputeClosure | db-tarea3/normalization/algorithms.py:4-17 | the sweeping loop returns exactly the least closed superset of the attributes |
| Algorithms.IsSuperkey | db-tarea3/normalization/algorithms.py:21-22 | true exactly when the heading is the least superset of the attributes that is closed under the dependencies |
| Algorithms.SingleRemovalSuffices | db-tarea3/normalization/algorithms.py:25-34 | a superkey none of whose single-attribute removals is a superkey has no proper subset that is a superkey, and conversely |
| Algorithms.IsKey | db-tarea3/normalization/algorithms.py:25-34 | true exactly when the attributes form a superkey and no single removal does, which is exactly minimality among superkeys |
| Example.Fd1Parses | db-tarea3/example.py:5 | `{RFC} -> {Nombre, CP}` decodes to that functional dependency |
| Example.Fd2Parses | db-tarea3/example.py:6 | `{FolioF} -> {RFC}` decodes to that functional dependency |
| Example.Fd3Parses | db-tarea3/example.py:7 | `{FolioF} -> {MontoF, IVA, FechaF}` decodes to that functional dependency |
| Example.Fd4Parses | db-tarea3/example.py:8 | `{FolioF} -> {RegimenF, CFDI}` decodes to that functional dependency |
| Example.Fd5Parses | db-tarea3/example.py:9 | `{FolioP} -> {MontoP, FechaP}` decodes to that functional dependency |
| Example.Fd6Parses | db-tarea3/example.py:10 | `{FolioP} -> {FolioF}` decodes to that functional dependency |
| Example.Mvd1Parses | db-tarea3/example.py:13 | `{RFC} ->-> {RegimenC}` decodes to that multivalued dependency |
| Example.BuildExample | db-tarea3/example.py:15-19 | the example relvar is accepted with its fourteen-attribute heading and all its dependencies |
| Example.RfcClosure | db-tarea3/normalization/algorithms.py:21-22 | the closure of `{RFC}` is `{RFC, Nombre, CP}`, so it is no superkey of the example |
| Example.FolioPClosure | db-tarea3/normalization/algorithms.py:4-17 | the closure of `{FolioP}` is the heading without Producto and RegimenC |
| Example.PaymentKeyIsKey | db-tarea3/normalization/algorithms.py:25-34 | `{FolioP, Producto, RegimenC}` is a minimal superkey of the example |
| Example.CheckExample | db-tarea3/normalization/algorithms.py:4-34 | on the example, the closure method and the key method return the values proved above |

## Left out

- `is_trivial`, in both dependency classes, is not modelled: the source only raises `NotImplementedError`.
- `is_relvar_in_bcnf` and `is_relvar_in_4nf` are not modelled, for the same reason.
- `__str__` and `__repr__` of `Relvar`, and `Dependency.__repr__`, are not modelled: they only
  display values. `Dependency.__str__` is modelled.
- The `isinstance` check on the expression is not modelled, because the argument is typed as a
  string here.
- The exception messages are not modelled: the `Error` datatype keeps only which exception is raised.
  For `InvalidDependency` it also keeps the offending attribute.
- Python's `re` engine is not modelled: the two fixed patterns are decided by a hand-written
  recogniser, proved equal to the grammar.
- Components.Relvar.AddFunctionalDependency: stores dependencies in a sequence, in insertion
  order. Python uses a set of objects compared by identity. Adding the same object twice keeps
  it once in Python but appends it twice here. Two distinct but equal objects are kept apart by
  both.
- Components.Relvar.AddMultivaluedDependency: same as AddFunctionalDependency.
- Algorithms.ComputeClosure: sweeps the dependencies in sequence order, whereas Python iterates
  a set in an unspecified order. `Algorithms.ClosureOrderIndependent` shows that the result does
  not depend on that order.
- Components.Render: the order in which each side's names are listed is a parameter, because
  Python takes it from the set's iteration order, which it leaves unspecified.
- Algorithms.IsSuperkey: is a function over `Closure`, because a function cannot call a method.
  `ComputeClosure` is proved to return `Closure`, so the two agree on every input.
- Algorithms.IsKey: visits the attributes in an arbitrary order chosen by the model, as Python
  does.
