# superposer / opencadd pocket helpers — a verified Dafny model

This project models the two pieces of the repository that carry logic:

- **The residue ID/label formatter of the pocket classes**
  (`Base._format_residue_pdb_ids_and_labels`, module `Pocket` in `pocket.dfy`).
  Python values are the datatype `Value = None | Int | Str | Bool` with Python
  truthiness (`Truthy`). The `residue_labels` argument is `Missing` (`None`) or
  `Given(list)`. A falsy labels argument (`None` or `[]`) becomes one `None`
  per ID. If the lengths still differ, the result is `ValueError` with the
  source's message. Otherwise every element goes through `str(x) if x else x`,
  which keeps every falsy value as it is: `None`, `0`, `""` and `False`.
  Python's `str` of an integer is modelled digit by digit in module `Decimal`
  (`decimal.dfy`). `ToNat` reads the digits back, and that round trip gives
  injectivity.
- **The planning logic of the `superposer` command line** (module
  `SuperposerCli` in `superposer_cli.dfy`):
  - `ChooseMethod` is the `--method` choice. It takes the default `theseus`
    when the option is absent, and otherwise accepts only the lower-cased
    name of a registered method.
  - `ParseMethodOptions` is the placeholder options parser. It is a loop
    that folds `dict.update` over the `;`-separated fields.
  - `PlanRun` is the loop in `main`. The first identifier is the reference.
    Alignment `i` (counting from 1) pairs the reference with identifier `i`.
    Its `j`-th superposed structure is saved as
    `superposed_{method}_{i}_{j}.pdb`. `os.path.isfile` is the parameter
    `isFile` (the files that existed before the run) together with the names
    of the files the run has saved so far. `align` is reduced to `superposed`, the number of structures
    that alignment `i` returns. The method returns three things: how each
    identifier is obtained (`Open` or `Fetch`), the alignment pairs, and the
    output file names in the order they are saved.

Two places where the source's own text promises more than its code does; the
model follows the code:

- The help text of the `structures` argument (superposer/cli.py:23) says that
  at least two identifiers are needed, but `nargs="+"` (superposer/cli.py:22)
  accepts a single one. The run then loads the reference and performs no
  alignment, writes no file and raises no error. `PlanRun` requires only one
  identifier.
- The help text of `--method-options` (superposer/cli.py:44) gives the syntax
  `key: value; key: value;...`, but the per-field parse (superposer/cli.py:55-58)
  is a TODO that always yields `{"dummy": "value"}`. A blank string gives `{}`
  and any other string gives `{"dummy": "value"}`. `ParseMethodOptions` models
  the placeholder. `AccumulateLastWins` states last-writer-wins for any
  per-field parser.

## Model

| member | source | states |
|---|---|---|
| Pocket.Truthy | opencadd/structure/pocket/core.py:37-44 | Python truthiness of an element: falsy exactly for `None`, `0`, `""` and `False` |
| Pocket.ToStr | opencadd/structure/pocket/core.py:38 | Python `str`: a string maps to itself; `None`, integers and booleans map to a non-empty text; an integer maps to its decimal form |
| Pocket.Cast | opencadd/structure/pocket/core.py:37-44 | the cast keeps truthiness; a falsy value (`None`, `0`, `""`, `False`) passes through unchanged; a truthy one becomes the string `str(x)` |
| Pocket.CastIdempotent | opencadd/structure/pocket/core.py:37-44 | casting a cast value changes nothing |
| Pocket.CastAll | opencadd/structure/pocket/core.py:37-44 | the comprehension keeps the length, and element k of the result is the cast of input element k |
| Pocket.CastAllIdempotent | opencadd/structure/pocket/core.py:37-44 | casting a cast list changes nothing |
| Pocket.LabelsFalsy | opencadd/structure/pocket/core.py:29 | `not residue_labels` holds exactly for `None` and the empty list |
| Pocket.FormatResidueIdsAndLabels | opencadd/structure/pocket/core.py:14-46 | `ValueError` (with the source's message) exactly when labels are supplied, non-empty and of a different length than the IDs; on success both lists have the IDs' length; IDs are cast pointwise in order; falsy labels become all `None`, other labels are cast pointwise; every truthy output element is a string |
| Pocket.FormatEmptyIds | opencadd/structure/pocket/core.py:29-34 | no IDs with `None` or `[]` labels gives `([], [])`; no IDs with non-empty labels raises `ValueError` |
| Pocket.FormatIdempotent | opencadd/structure/pocket/core.py:29-46 | formatting a successful result again returns that same result |
| Decimal.FromNat | superposer/cli.py:120 | the f-string rendering of a number is a non-empty string of digits; a rendering that starts with `0` is exactly `"0"`, the rendering of zero |
| Decimal.ToNatFromNat | superposer/cli.py:120 | reading back the rendered digits gives the number |
| Decimal.FromNatInjective | superposer/cli.py:120 | distinct numbers render to distinct strings |
| Decimal.FromInt | opencadd/structure/pocket/core.py:38 | `str` of an integer: a leading `-` exactly for negatives, the digits read back to the absolute value, and there are no leading zeros (the only non-negative rendering starting with `0` is `"0"` itself, and a negative has no `0` after its sign) |
| SuperposerCli.ChooseMethod | superposer/cli.py:34-39 | an absent `--method` gives `theseus`; a given name is accepted exactly when it equals the lower-cased name of a registered method, and is returned unchanged and lower-case |
| SuperposerCli.Lower | superposer/cli.py:38 | `m.lower()` keeps the length, lower-cases each character on its own, and leaves no upper-case ASCII letter |
| SuperposerCli.LowerIdempotent | superposer/cli.py:38 | lower-casing a lower-cased name changes nothing |
| SuperposerCli.IsSpace | superposer/cli.py:52 | the characters `strip()` removes; among ASCII they are exactly space, tab, line feed, carriage return, vertical tab, form feed and the separators 0x1c-0x1f |
| SuperposerCli.StripStart | superposer/cli.py:52 | dropping leading whitespace leaves nothing exactly when every character is whitespace, and otherwise leaves text that starts with a non-whitespace character |
| SuperposerCli.StripEnd | superposer/cli.py:52 | dropping trailing whitespace leaves nothing exactly when every character is whitespace |
| SuperposerCli.IsBlank | superposer/cli.py:52 | `not string or not string.strip()` holds exactly when the option is absent or stripping it leaves the empty string |
| SuperposerCli.Split | superposer/cli.py:54 | `split(";")` gives one more field than there are separators, and no field contains the separator |
| SuperposerCli.JoinSplit | superposer/cli.py:54 | joining the fields with the separator gives back the original string |
| SuperposerCli.ParseField | superposer/cli.py:57-58 | the placeholder per-field parse yields the one-entry dictionary `{"dummy": "value"}` whatever the field |
| SuperposerCli.Accumulate | superposer/cli.py:56-59 | updating over no fields leaves `{}`; otherwise every entry of the last field is in the result with that field's value |
| SuperposerCli.AccumulateLastWins | superposer/cli.py:56-59 | after updating over the fields in order, a key is present exactly when some field supplies it, and it holds the value of the last field that supplies it |
| SuperposerCli.AccumulatePlaceholder | superposer/cli.py:56-59 | with the placeholder per-field parse, any non-empty list of fields accumulates to exactly `{"dummy": "value"}` |
| SuperposerCli.ParseMethodOptions | superposer/cli.py:50-60 | a `None`, empty or whitespace-only string gives `{}`; any other string gives the in-order update over its `;`-fields, which is exactly `{"dummy": "value"}` whatever the contents |
| SuperposerCli.FileName | superposer/cli.py:120 | the output name starts with `superposed_{method}_` and ends with `.pdb` |
| SuperposerCli.FileNameNumbers | superposer/cli.py:120 | between that prefix and `.pdb` the name holds two digit strings joined by one `_`, which read back as the alignment and structure numbers |
| SuperposerCli.FileNameInjective | superposer/cli.py:119-120 | for a fixed method, distinct (alignment, structure) numbers give distinct file names, because the first `_` after the prefix separates the two numbers |
| SuperposerCli.OutputNamesCount | superposer/cli.py:98-120 | the number of files written is the sum over the alignments of their superposed counts |
| SuperposerCli.OutputNamesOrigin | superposer/cli.py:98-120 | every written file name is `superposed_{method}_{i}_{j}.pdb` for some alignment i in range and some structure j of that alignment |
| SuperposerCli.OutputNamesComplete | superposer/cli.py:98-120 | every alignment i in range and structure j of it has its file among the written names |
| SuperposerCli.OutputNamesDistinct | superposer/cli.py:98-120 | no file name is written twice |
| SuperposerCli.Acquire | superposer/cli.py:94-100 | the loader keeps the identifier; it is `Open` exactly when `isFile` holds of the identifier or it is spelled exactly as a name already saved, and `Fetch` otherwise |
| SuperposerCli.PlanRun | superposer/cli.py:92-120 | each identifier in order is opened locally exactly when `isFile` holds of it (the file system before the run) or it is spelled exactly as a file name saved by an earlier alignment, and fetched otherwise; there are `len(structures) - 1` alignments; alignment i pairs the first identifier with identifier i, in input order (so one identifier gives no alignment and no file); the files are those of every alignment in order, their number is the sum of the superposed counts, and they are pairwise distinct |

## Left out

- Command-line parsing beyond `--method` (`--version`, `-v`, `--no-emoji` and argparse's own errors): argument handling with no logic of its own.
- `greeting`, `configure_logger`, the log levels 25 and 101 and the formatters: logging, which does not change what is computed.
- `atomium.open`, `atomium.fetch` and `structure.save`: file and network I/O. The model returns which loader each identifier uses (`Acquisition`) and which file names are saved, in order.
- `align` and the `METHODS` registry: numeric, floating-point code that is not part of this model. The registry is a list of names. An alignment is reduced to how many superposed structures it returns. The RMSD value and its `%.1f` log line are not modelled.
- PlanRun: the superposed count is a function of the alignment number only. The real count depends on the two models.
- PlanRun: `isFile` is the file system as it was before the run. The model adds the files the run itself saves, but recognises such a file only under the exact name it was saved as (`superposed_theseus_1_1.pdb`). Any other spelling of the same path (`./superposed_theseus_1_1.pdb`, an absolute path, a different letter case on a case-insensitive file system) is fetched unless `isFile` says it existed before the run, whereas the source's `os.path.isfile` would find it and open it. Changes made to the file system by anything else during the run are not modelled either.
- PlanRun: the loads, alignments and saves come back as three sequences, not as one interleaved trace. The order within each sequence is the source's order.
- PlanRun: errors raised by fetching, by alignment and by unpacking an empty `align` result (`result, *_empty = ...`) are not modelled. In the source any of them aborts the run.
- Lower-casing of method names: only ASCII letters are lower-cased. Python's `str.lower` also maps other Unicode letters.
- Residue IDs and labels: the model covers `None`, `int`, `str` and `bool`. Other Python types (floats, tuples, ...) that could reach the formatter are not modelled.
- opencadd/databases/klifs_new/remote.py: six empty subclasses that only hold a REST client handle. They have no behaviour to model.
