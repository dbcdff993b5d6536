/** The planning logic of the `superposer` command line: the placeholder
    parser of `--method-options`, and the loop of `main` that pairs the
    reference with each mobile structure and names the output files.
    File-system checks, fetching and alignment are abstract parameters. */
module SuperposerCli {
  import Decimal

  datatype Option<T> = None | Some(value: T)

  // ---------------------------------------------------------------------------
  // --method: a lower-cased registry name, "theseus" when not given
  // ---------------------------------------------------------------------------

  /** `str.lower()` on ASCII letters; other characters are kept. */
  function LowerChar(c: char): char {
    if 'A' <= c <= 'Z' then (c as int - 'A' as int + 'a' as int) as char else c
  }

  function Lower(s: string): (r: string)
    ensures |r| == |s|
    ensures forall k :: 0 <= k < |s| ==> r[k] == LowerChar(s[k]) && !('A' <= r[k] <= 'Z')
  {
    seq(|s|, k requires 0 <= k < |s| => LowerChar(s[k]))
  }

  const DefaultMethod := "theseus"

  /** The `--method` argument as argparse accepts it: absent gives the default
      (which argparse does not check against the choices), present must equal
      the lower-cased name of a registered method. `None` is the usage error. */
  function ChooseMethod(arg: Option<string>, registry: seq<string>): (r: Option<string>)
    ensures arg.None? ==> r == Some(DefaultMethod)
    ensures arg.Some? ==> (r.Some? <==> exists m :: m in registry && Lower(m) == arg.value)
    ensures arg.Some? && r.Some? ==> r.value == arg.value && Lower(r.value) == r.value
  {
    match arg
    case None => Some(DefaultMethod)
    case Some(name) =>
      if exists m :: m in registry && Lower(m) == name then
        var m :| m in registry && Lower(m) == name;
        LowerIdempotent(m);
        Some(name)
      else None
  }

  lemma LowerIdempotent(s: string)
    ensures Lower(Lower(s)) == Lower(s)
  {
  }

  // ---------------------------------------------------------------------------
  // parse_method_options
  // ---------------------------------------------------------------------------

  /** The characters Python's `str.strip()` removes (those for which `str.isspace()` holds). */
  predicate IsSpace(c: char)
    // among ASCII characters: the six of `string.whitespace` and the separators \x1c-\x1f
    ensures c < '\U{80}' ==> (IsSpace(c) <==> c in " \t\n\r" || c == '\U{0b}' || c == '\U{0c}' || '\U{1c}' <= c <= '\U{1f}')
  {
    c == ' ' || '\t' <= c <= '\r' || '\U{1c}' <= c <= '\U{1f}' || c == '\U{85}' || c == '\U{a0}'
    || c == '\U{1680}' || '\U{2000}' <= c <= '\U{200a}' || c == '\U{2028}' || c == '\U{2029}'
    || c == '\U{202f}' || c == '\U{205f}' || c == '\U{3000}'
  }

  /** Python's `s.strip()`: drop leading and trailing whitespace. */
  function Strip(s: string): string {
    StripEnd(StripStart(s))
  }

  function StripStart(s: string): (r: string)
    ensures |r| <= |s|
    ensures r != [] ==> !IsSpace(r[0])
    ensures r == [] <==> forall k :: 0 <= k < |s| ==> IsSpace(s[k])
  {
    if s != [] && IsSpace(s[0]) then StripStart(s[1..]) else s
  }

  function StripEnd(s: string): (r: string)
    ensures r == [] <==> forall k :: 0 <= k < |s| ==> IsSpace(s[k])
  {
    if s != [] && IsSpace(s[|s| - 1]) then StripEnd(s[..|s| - 1]) else s
  }

  /** `not string or not string.strip()`: `None`, empty, or only whitespace. */
  predicate IsBlank(text: Option<string>)
    ensures IsBlank(text) <==> text.None? || Strip(text.value) == ""
  {
    text.None? || forall k :: 0 <= k < |text.value| ==> IsSpace(text.value[k])
  }

  function Count(s: string, c: char): nat {
    if s == [] then 0 else (if s[0] == c then 1 else 0) + Count(s[1..], c)
  }

  /** Python's `s.split(sep)` with a one-character separator. */
  function Split(s: string, sep: char): (fields: seq<string>)
    ensures |fields| == Count(s, sep) + 1
    ensures forall k :: 0 <= k < |fields| ==> sep !in fields[k]
  {
    if s == [] then [""]
    else
      var rest := Split(s[1..], sep);
      if s[0] == sep then [""] + rest else [[s[0]] + rest[0]] + rest[1..]
  }

  /** Python's `sep.join(fields)`, the inverse of `Split`. */
  function Join(fields: seq<string>, sep: char): string
    requires |fields| >= 1
  {
    if |fields| == 1 then fields[0] else fields[0] + [sep] + Join(fields[1..], sep)
  }

  lemma {:induction false} JoinSplit(s: string, sep: char)
    ensures Join(Split(s, sep), sep) == s
  {
    if s != [] {
      var rest := Split(s[1..], sep);
      JoinSplit(s[1..], sep);
      if s[0] == sep {
        assert Split(s, sep) == [""] + rest;
        assert ([""] + rest)[1..] == rest;
      } else if |rest| == 1 {
        assert Split(s, sep) == [[s[0]] + rest[0]];
      } else {
        var fields := [[s[0]] + rest[0]] + rest[1..];
        assert Split(s, sep) == fields;
        assert fields[1..] == rest[1..];
        assert Join(rest, sep) == rest[0] + [sep] + Join(rest[1..], sep);
      }
    }
  }

  /** One field's options. The source leaves the real parse as a TODO and returns a fixed dictionary. */
  function ParseField(field: string): (options: map<string, string>)
    ensures options.Keys == {"dummy"} && options["dummy"] == "value"
  {
    map["dummy" := "value"]
  }

  /** `options.update(parse(field))` for each field in turn, starting from `{}`. */
  function Accumulate(fields: seq<string>, parse: string -> map<string, string>): (options: map<string, string>)
    // no fields, no options; otherwise every entry of the last field is kept as it is
    ensures fields == [] ==> options == map[]
    ensures fields != [] ==> parse(fields[|fields| - 1]).Keys <= options.Keys
    ensures fields != [] ==> forall key :: key in parse(fields[|fields| - 1]) ==>
              options[key] == parse(fields[|fields| - 1])[key]
  {
    if fields == [] then map[]
    else Accumulate(fields[..|fields| - 1], parse) + parse(fields[|fields| - 1])
  }

  /** A key ends up in the options exactly when some field supplies it, and it
      carries the value of the last field that does. */
  lemma {:induction false} AccumulateLastWins(fields: seq<string>, parse: string -> map<string, string>, key: string)
    ensures key in Accumulate(fields, parse) <==> exists j :: 0 <= j < |fields| && key in parse(fields[j])
    ensures forall j :: 0 <= j < |fields| && key in parse(fields[j])
                        && (forall l :: j < l < |fields| ==> key !in parse(fields[l])) ==>
              key in Accumulate(fields, parse) && Accumulate(fields, parse)[key] == parse(fields[j])[key]
  {
    if fields != [] {
      var n := |fields|;
      var init := fields[..n - 1];
      AccumulateLastWins(init, parse, key);
      assert forall j :: 0 <= j < n - 1 ==> init[j] == fields[j];
      if key in parse(fields[n - 1]) {
        assert key in Accumulate(fields, parse);
      }
    }
  }

  /** With the placeholder parse, any non-empty list of fields gives `{"dummy": "value"}`. */
  lemma {:induction false} AccumulatePlaceholder(fields: seq<string>)
    requires fields != []
    ensures Accumulate(fields, ParseField) == map["dummy" := "value"]
  {
    var n := |fields|;
    if n > 1 {
      AccumulatePlaceholder(fields[..n - 1]);
    }
  }

  method ParseMethodOptions(text: Option<string>) returns (options: map<string, string>)
    ensures IsBlank(text) ==> options == map[]
    ensures !IsBlank(text) ==> options == Accumulate(Split(text.value, ';'), ParseField)
    ensures !IsBlank(text) ==> options == map["dummy" := "value"]
  {
    options := map[];
    if IsBlank(text) {
      return;
    }
    var fields := Split(text.value, ';');
    for i := 0 to |fields|
      invariant options == Accumulate(fields[..i], ParseField)
    {
      assert fields[..i + 1][..i] == fields[..i];
      options := options + ParseField(fields[i]);
    }
    assert fields[..|fields|] == fields;
    AccumulatePlaceholder(fields);
  }

  // ---------------------------------------------------------------------------
  // main: reference/mobile pairing and output naming
  // ---------------------------------------------------------------------------

  /** How a structure identifier is turned into a model: `atomium.open` or `atomium.fetch`. */
  datatype Acquisition = Open(id: string) | Fetch(id: string)

  /** `os.path.isfile(id)` at the moment of loading: a file that existed before
      the run, or one the run has already saved under exactly the name `id`. */
  function Acquire(id: string, isFile: string -> bool, written: seq<string>): (a: Acquisition)
    ensures a.id == id
    ensures a.Open? <==> isFile(id) || id in written
  {
    if isFile(id) || id in written then Open(id) else Fetch(id)
  }

  /** `f"superposed_{method}_{i}_{j}.pdb"` */
  function FileName(methodName: string, i: nat, j: nat): (name: string)
    ensures |name| >= |"superposed_" + methodName + "_"| + 4
    ensures name[..|"superposed_" + methodName + "_"|] == "superposed_" + methodName + "_"
    ensures name[|name| - 4..] == ".pdb"
  {
    "superposed_" + methodName + "_" + Decimal.FromNat(i) + "_" + Decimal.FromNat(j) + ".pdb"
  }

  /** Between the prefix and `.pdb`, a file name holds two digit strings joined by
      one `_`, and they read back as the alignment and structure numbers. */
  lemma FileNameNumbers(methodName: string, i: nat, j: nat)
    ensures var name := FileName(methodName, i, j);
            var middle := name[|"superposed_" + methodName + "_"|..|name| - 4];
            exists u :: 0 <= u < |middle| && middle[u] == '_'
                        && Decimal.AllDigits(middle[..u]) && Decimal.AllDigits(middle[u + 1..])
                        && Decimal.ToNat(middle[..u]) == i && Decimal.ToNat(middle[u + 1..]) == j
  {
    var a, b := Decimal.FromNat(i), Decimal.FromNat(j);
    var prefix := "superposed_" + methodName + "_";
    var middle := a + "_" + b;
    var name := FileName(methodName, i, j);
    assert name == prefix + middle + ".pdb";
    assert name[|prefix|..|name| - 4] == middle;
    assert middle[..|a|] == a && middle[|a| + 1..] == b;
    Decimal.ToNatFromNat(i);
    Decimal.ToNatFromNat(j);
  }

  /** The files written for alignment `i` when it returns `count` superposed structures. */
  function Block(methodName: string, i: nat, count: nat): seq<string> {
    seq(count, k requires 0 <= k < count => FileName(methodName, i, k + 1))
  }

  /** The files written by alignments 1 to `n`, in the order they are saved. */
  function OutputNames(methodName: string, superposed: nat -> nat, n: nat): seq<string> {
    if n == 0 then [] else OutputNames(methodName, superposed, n - 1) + Block(methodName, n, superposed(n))
  }

  function TotalOutputs(superposed: nat -> nat, n: nat): nat {
    if n == 0 then 0 else TotalOutputs(superposed, n - 1) + superposed(n)
  }

  lemma {:induction false} OutputNamesCount(methodName: string, superposed: nat -> nat, n: nat)
    ensures |OutputNames(methodName, superposed, n)| == TotalOutputs(superposed, n)
  {
    if n > 0 {
      OutputNamesCount(methodName, superposed, n - 1);
    }
  }

  /** A `_` preceded only by digits is the first `_` of the text, so there is only one. */
  lemma FirstSeparator(middle: string, u: nat, u': nat)
    requires u < |middle| && middle[u] == '_' && Decimal.AllDigits(middle[..u])
    requires u' < |middle| && middle[u'] == '_' && Decimal.AllDigits(middle[..u'])
    ensures u == u'
  {
    assert forall k :: 0 <= k < u ==> middle[k] == middle[..u][k];
    assert forall k :: 0 <= k < u' ==> middle[k] == middle[..u'][k];
  }

  /** For a fixed method, distinct (alignment, structure) numbers give distinct file names:
      the first `_` after the prefix separates the two numbers, which read back uniquely. */
  lemma FileNameInjective(methodName: string, i: nat, j: nat, i': nat, j': nat)
    ensures FileName(methodName, i, j) == FileName(methodName, i', j') ==> i == i' && j == j'
  {
    if FileName(methodName, i, j) == FileName(methodName, i', j') {
      var name := FileName(methodName, i, j);
      var prefix := "superposed_" + methodName + "_";
      var middle := name[|prefix|..|name| - 4];
      FileNameNumbers(methodName, i, j);
      FileNameNumbers(methodName, i', j');
      var u :| 0 <= u < |middle| && middle[u] == '_'
               && Decimal.AllDigits(middle[..u]) && Decimal.AllDigits(middle[u + 1..])
               && Decimal.ToNat(middle[..u]) == i && Decimal.ToNat(middle[u + 1..]) == j;
      var u' :| 0 <= u' < |middle| && middle[u'] == '_'
                && Decimal.AllDigits(middle[..u']) && Decimal.AllDigits(middle[u' + 1..])
                && Decimal.ToNat(middle[..u']) == i' && Decimal.ToNat(middle[u' + 1..]) == j';
      FirstSeparator(middle, u, u');
    }
  }

  /** Every output name belongs to some alignment 1..n and one of its superposed structures. */
  lemma {:induction false} OutputNamesOrigin(methodName: string, superposed: nat -> nat, n: nat, k: nat)
    requires k < |OutputNames(methodName, superposed, n)|
    ensures exists i, j :: 1 <= i <= n && 1 <= j <= superposed(i)
                           && OutputNames(methodName, superposed, n)[k] == FileName(methodName, i, j)
  {
    var prev := OutputNames(methodName, superposed, n - 1);
    if k < |prev| {
      OutputNamesOrigin(methodName, superposed, n - 1, k);
    } else {
      var j := k - |prev| + 1;
      assert OutputNames(methodName, superposed, n)[k] == FileName(methodName, n, j);
    }
  }

  /** Every (alignment, structure) pair in range has its file among the outputs. */
  lemma {:induction false} OutputNamesComplete(methodName: string, superposed: nat -> nat, n: nat, i: nat, j: nat)
    requires 1 <= i <= n && 1 <= j <= superposed(i)
    ensures FileName(methodName, i, j) in OutputNames(methodName, superposed, n)
  {
    var prev := OutputNames(methodName, superposed, n - 1);
    var block := Block(methodName, n, superposed(n));
    if i < n {
      OutputNamesComplete(methodName, superposed, n - 1, i, j);
      assert FileName(methodName, i, j) in prev + block;
    } else {
      assert block[j - 1] == FileName(methodName, i, j);
      assert FileName(methodName, i, j) in prev + block;
    }
  }

  /** No name occurs twice. */
  predicate Distinct(names: seq<string>) {
    forall a, b :: 0 <= a < b < |names| ==> names[a] != names[b]
  }

  lemma {:induction false} OutputNamesDistinct(methodName: string, superposed: nat -> nat, n: nat)
    ensures Distinct(OutputNames(methodName, superposed, n))
  {
    if n > 0 {
      var prev := OutputNames(methodName, superposed, n - 1);
      var block := Block(methodName, n, superposed(n));
      var names := prev + block;
      OutputNamesDistinct(methodName, superposed, n - 1);
      forall a, b | 0 <= a < b < |names|
        ensures names[a] != names[b]
      {
        assert names[a] == if a < |prev| then prev[a] else block[a - |prev|];
        assert names[b] == if b < |prev| then prev[b] else block[b - |prev|];
        if |prev| <= a {
          assert block[a - |prev|] == FileName(methodName, n, a - |prev| + 1);
          assert block[b - |prev|] == FileName(methodName, n, b - |prev| + 1);
          FileNameInjective(methodName, n, a - |prev| + 1, n, b - |prev| + 1);
        } else if |prev| <= b {
          OutputNamesOrigin(methodName, superposed, n - 1, a);
          var i, j :| 1 <= i <= n - 1 && 1 <= j <= superposed(i) && prev[a] == FileName(methodName, i, j);
          assert block[b - |prev|] == FileName(methodName, n, b - |prev| + 1);
          FileNameInjective(methodName, i, j, n, b - |prev| + 1);
        } else {
          assert prev[a] != prev[b];
        }
      }
    }
  }

  /** The loop of `main`: the first identifier is the reference; alignment i
      (from 1) pairs it with identifier i, and its j-th superposed structure
      (from 1) is saved as `superposed_{method}_{i}_{j}.pdb`. `isFile` stands
      for `os.path.isfile` on the file system as it was before the run,
      `superposed(i)` for the number of structures that
      alignment i returns. */
  method PlanRun(structures: seq<string>, methodName: string, isFile: string -> bool, superposed: nat -> nat)
    returns (acquisitions: seq<Acquisition>, pairs: seq<(string, string)>, files: seq<string>)
    requires |structures| >= 1
    // every identifier, in input order, is opened locally exactly when it is a file that
    // existed before the run, or is spelled exactly as a name saved by an earlier alignment
    ensures |acquisitions| == |structures|
    ensures forall k :: 0 <= k < |structures| ==>
              acquisitions[k] == (if isFile(structures[k]) || structures[k] in OutputNames(methodName, superposed, if k == 0 then 0 else k - 1)
                                  then Open(structures[k]) else Fetch(structures[k]))
    // one alignment per mobile structure, each against the reference
    ensures |pairs| == |structures| - 1
    ensures forall i :: 1 <= i < |structures| ==> pairs[i - 1] == (structures[0], structures[i])
    ensures files == OutputNames(methodName, superposed, |structures| - 1)
    ensures |files| == TotalOutputs(superposed, |structures| - 1)
    ensures Distinct(files)
  {
    var reference := structures[0];
    var mobiles := structures[1..];
    files := [];
    acquisitions := [Acquire(reference, isFile, files)];
    pairs := [];
    for i := 1 to |mobiles| + 1
      invariant |acquisitions| == i
      invariant forall k :: 0 <= k < i ==>
                  acquisitions[k] == Acquire(structures[k], isFile, OutputNames(methodName, superposed, if k == 0 then 0 else k - 1))
      invariant |pairs| == i - 1
      invariant forall p :: 1 <= p < i ==> pairs[p - 1] == (reference, structures[p])
      invariant files == OutputNames(methodName, superposed, i - 1)
    {
      var mobile := mobiles[i - 1];
      acquisitions := acquisitions + [Acquire(mobile, isFile, files)];
      pairs := pairs + [(reference, mobile)];
      var count := superposed(i);
      for j := 1 to count + 1
        invariant files == OutputNames(methodName, superposed, i - 1) + Block(methodName, i, j - 1)
      {
        assert Block(methodName, i, j) == Block(methodName, i, j - 1) + [FileName(methodName, i, j)];
        files := files + [FileName(methodName, i, j)];
      }
    }
    OutputNamesCount(methodName, superposed, |structures| - 1);
    OutputNamesDistinct(methodName, superposed, |structures| - 1);
  }
}
