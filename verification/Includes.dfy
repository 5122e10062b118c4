// dictionary/parser/parser.go, from the directives of each line on: $INCLUDE
// resolution over a finite map of files, cyclic ones included.
module Includes {
  import Bytes

  type Path = string

  datatype Attr = Attr(name: string, typ: Bytes.byte, valueType: string, encrypt: int, hasTag: bool, vendor: string)
  datatype Val = Val(attributeName: string, name: string, number: nat)
  datatype Vendor = Vendor(name: string, id: nat)
  datatype Dict = Dict(attributes: seq<Attr>, values: seq<Val>, vendors: seq<Vendor>)

  const EMPTY := Dict([], [], [])

  function Append(a: Dict, b: Dict): Dict {
    Dict(a.attributes + b.attributes, a.values + b.values, a.vendors + b.vendors)
  }

  lemma AppendAssoc(a: Dict, b: Dict, c: Dict)
    ensures Append(Append(a, b), c) == Append(a, Append(b, c))
    ensures Append(EMPTY, a) == a && Append(a, EMPTY) == a
  {
  }

  // What one line asks for. An attribute is still without its vendor.
  datatype Directive =
    | Skip
    | Malformed
    | Include(argument: string)
    | Attribute(attr: Attr)
    | Value(val: Val)
    | VendorId(vendor: Vendor)
    | BeginVendor(name: string)
    | EndVendor

  // The words of a line, its comment stripped; strings.Fields yields no empty word.
  type Token = s: string | s != "" witness "x"
  type Line = seq<Token>

  // The readable files, what a line asks for (module Parser), and how an $INCLUDE
  // argument in a file names another one.
  datatype Sources = Sources(
    files: map<Path, seq<Line>>,
    classify: Line -> Directive,
    resolve: (Path, string) -> Path)

  function DirectiveAt(src: Sources, p: Path, i: nat): Directive
    requires p in src.files && i < |src.files[p]|
  {
    src.classify(src.files[p][i])
  }

  datatype ParseError =
    | CircularInclude(path: Path)
    | CannotOpen(path: Path)
    | BadLine(path: Path, line: nat)

  datatype Parsed<+T> = Ok(value: T) | Err(error: ParseError) {
    predicate IsFailure() { Err? }

    function PropagateFailure<U>(): Parsed<U>
      requires Err?
    {
      Err(error)
    }

    function Extract(): T
      requires Ok?
    {
      value
    }
  }

  // ----- what the parser computes -----

  function NextContext(d: Directive, ctx: string): string {
    match d
    case BeginVendor(name) => name
    case EndVendor => ""
    case _ => ctx
  }

  // What a line that is no $INCLUDE adds.
  function Entry(d: Directive, ctx: string): Dict {
    match d
    case Attribute(attr) => Dict([attr.(vendor := ctx)], [], [])
    case Value(val) => Dict([], [val], [])
    case VendorId(vendor) => Dict([], [], [vendor])
    case _ => EMPTY
  }

  // parseFile: `visited` holds the paths on the include stack.
  function ParseFile(src: Sources, abs: Path, visited: set<Path>): Parsed<Dict>
    decreases |src.files.Keys - visited|, 0
  {
    if abs in visited then Err(CircularInclude(abs))
    else if abs !in src.files then Err(CannotOpen(abs))
    else
      Shrinks(src.files.Keys, visited, abs);
      ParseLines(src, abs, 0, "", visited + {abs})
  }

  // parse, from line index `i` on.
  function ParseLines(src: Sources, abs: Path, i: nat, ctx: string, visited: set<Path>): Parsed<Dict>
    requires abs in src.files && i <= |src.files[abs]|
    decreases |src.files.Keys - visited|, |src.files[abs]| - i + 1
  {
    if i == |src.files[abs]| then Ok(EMPTY)
    else
      var d := DirectiveAt(src, abs, i);
      var here :- ParseLine(src, abs, i, ctx, visited);
      var rest :- ParseLines(src, abs, i + 1, NextContext(d, ctx), visited);
      Ok(Append(here, rest))
  }

  function ParseLine(src: Sources, abs: Path, i: nat, ctx: string, visited: set<Path>): Parsed<Dict>
    requires abs in src.files && i < |src.files[abs]|
    decreases |src.files.Keys - visited|, 1
  {
    match DirectiveAt(src, abs, i)
    case Malformed => Err(BadLine(abs, i + 1))
    case Include(argument) => ParseFile(src, src.resolve(abs, argument), visited)
    case d => Ok(Entry(d, ctx))
  }

  lemma Shrinks(keys: set<Path>, visited: set<Path>, abs: Path)
    requires abs in keys && abs !in visited
    ensures |keys - (visited + {abs})| < |keys - visited|
  {
    assert keys - visited == (keys - (visited + {abs})) + {abs};
  }

  // ----- include paths -----

  predicate Mentions(src: Sources, p: Path, i: nat, q: Path) {
    p in src.files && i < |src.files[p]| && DirectiveAt(src, p, i).Include? && src.resolve(p, DirectiveAt(src, p, i).argument) == q
  }

  ghost predicate Edge(src: Sources, p: Path, q: Path) {
    exists i: nat :: Mentions(src, p, i, q)
  }

  // A chain of $INCLUDEs, each file naming the next.
  ghost predicate IncludePath(src: Sources, p: Path, ps: seq<Path>) {
    && ps != []
    && ps[0] == p
    && forall i :: 0 <= i < |ps| - 1 ==> Edge(src, ps[i], ps[i + 1])
  }

  predicate WellFormed(src: Sources, p: Path) {
    p in src.files && forall i :: 0 <= i < |src.files[p]| ==> DirectiveAt(src, p, i) != Malformed
  }

  // The last file of the path opens, has only well-formed lines, and is not itself on
  // the stack already.
  predicate GoodEnd(src: Sources, ps: seq<Path>, visited: set<Path>)
    requires ps != []
  {
    var last := ps[|ps| - 1];
    WellFormed(src, last) && last !in visited && last !in ps[..|ps| - 1]
  }

  // What an error says about the path at whose end it was found.
  predicate Explains(src: Sources, e: ParseError, ps: seq<Path>, visited: set<Path>)
    requires ps != []
  {
    var last := ps[|ps| - 1];
    e.path == last
    && match e
       case CircularInclude(_) => last in visited || last in ps[..|ps| - 1]
       case CannotOpen(_) => last !in src.files
       case BadLine(_, n) => last in src.files && 1 <= n <= |src.files[last]| && DirectiveAt(src, last, n - 1) == Malformed
  }

  lemma {:induction false} EveryLineParses(src: Sources, abs: Path, i: nat, ctx: string, visited: set<Path>, j: nat)
    requires abs in src.files && i <= j < |src.files[abs]|
    requires ParseLines(src, abs, i, ctx, visited).Ok?
    ensures DirectiveAt(src, abs, j) != Malformed
    ensures DirectiveAt(src, abs, j).Include? ==> ParseFile(src, src.resolve(abs, DirectiveAt(src, abs, j).argument), visited).Ok?
    decreases j - i
  {
    if i < j {
      EveryLineParses(src, abs, i + 1, NextContext(DirectiveAt(src, abs, i), ctx), visited, j);
    }
  }

  lemma PathCons(src: Sources, p: Path, qs: seq<Path>)
    requires qs != [] && Edge(src, p, qs[0]) && IncludePath(src, qs[0], qs)
    ensures IncludePath(src, p, [p] + qs)
  {
    var ps := [p] + qs;
    forall i | 0 <= i < |ps| - 1
      ensures Edge(src, ps[i], ps[i + 1])
    {
      if i > 0 {
        assert Edge(src, qs[i - 1], qs[i]);
      }
    }
  }

  lemma PathTail(src: Sources, p: Path, ps: seq<Path>)
    requires IncludePath(src, p, ps) && |ps| > 1
    ensures Edge(src, p, ps[1]) && IncludePath(src, ps[1], ps[1..])
  {
    var t := ps[1..];
    forall i | 0 <= i < |t| - 1
      ensures Edge(src, t[i], t[i + 1])
    {
      assert Edge(src, ps[i + 1], ps[i + 2]);
    }
    assert Edge(src, ps[0], ps[1]);
  }

  lemma {:induction false} SuccessMeansGoodPaths(src: Sources, p: Path, visited: set<Path>, ps: seq<Path>)
    requires ParseFile(src, p, visited).Ok? && IncludePath(src, p, ps)
    ensures GoodEnd(src, ps, visited)
    decreases |ps|
  {
    forall j | 0 <= j < |src.files[p]|
      ensures DirectiveAt(src, p, j) != Malformed
    {
      EveryLineParses(src, p, 0, "", visited + {p}, j);
    }
    if |ps| > 1 {
      PathTail(src, p, ps);
      var i: nat :| Mentions(src, p, i, ps[1]);
      EveryLineParses(src, p, 0, "", visited + {p}, i);
      SuccessMeansGoodPaths(src, ps[1], visited + {p}, ps[1..]);
      assert ps[..|ps| - 1] == [p] + ps[1..][..|ps| - 2];
    }
  }

  lemma {:induction false} ErrorHasPath(src: Sources, p: Path, visited: set<Path>) returns (ps: seq<Path>)
    requires ParseFile(src, p, visited).Err?
    ensures IncludePath(src, p, ps) && Explains(src, ParseFile(src, p, visited).error, ps, visited)
    decreases |src.files.Keys - visited|, 0
  {
    if p in visited || p !in src.files {
      ps := [p];
    } else {
      Shrinks(src.files.Keys, visited, p);
      ps := LineErrorHasPath(src, p, 0, "", visited + {p});
      ExplainedAbove(src, ParseFile(src, p, visited).error, p, ps, visited);
    }
  }

  // Inside a file that is on the stack.
  lemma {:induction false} LineErrorHasPath(src: Sources, p: Path, i: nat, ctx: string, visited: set<Path>)
    returns (ps: seq<Path>)
    requires p in src.files && p in visited && i <= |src.files[p]|
    requires ParseLines(src, p, i, ctx, visited).Err?
    ensures IncludePath(src, p, ps)
    ensures |ps| == 1 ==> ParseLines(src, p, i, ctx, visited).error.BadLine?
    ensures |ps| > 1 ==> Explains(src, ParseLines(src, p, i, ctx, visited).error, ps[1..], visited)
    ensures |ps| == 1 ==> Explains(src, ParseLines(src, p, i, ctx, visited).error, ps, {})
    decreases |src.files.Keys - visited|, |src.files[p]| - i + 1
  {
    var d := DirectiveAt(src, p, i);
    if ParseLine(src, p, i, ctx, visited).Ok? {
      ps := LineErrorHasPath(src, p, i + 1, NextContext(d, ctx), visited);
    } else if d.Include? {
      var q := src.resolve(p, d.argument);
      var qs := ErrorHasPath(src, q, visited);
      assert Mentions(src, p, i, q);
      PathCons(src, p, qs);
      ps := [p] + qs;
      assert ps[1..] == qs;
    } else {
      ps := [p];
    }
  }

  lemma ExplainedAbove(src: Sources, e: ParseError, p: Path, ps: seq<Path>, visited: set<Path>)
    requires IncludePath(src, p, ps)
    requires |ps| > 1 ==> Explains(src, e, ps[1..], visited + {p})
    requires |ps| == 1 ==> Explains(src, e, ps, {}) && e.BadLine?
    ensures Explains(src, e, ps, visited)
  {
    if |ps| > 1 {
      assert ps[..|ps| - 1] == [p] + ps[1..][..|ps| - 2];
    }
  }

  // ParseFile succeeds exactly when every include path from the file ends in a file
  // that opens, is well formed, and does not occur earlier on that path: every
  // reachable file is readable and correct, and no include cycle is reachable.
  lemma ParseSucceedsIff(src: Sources, p: Path)
    ensures ParseFile(src, p, {}).Ok?
       <==> forall ps: seq<Path> :: IncludePath(src, p, ps) ==> GoodEnd(src, ps, {})
  {
    if ParseFile(src, p, {}).Ok? {
      forall ps: seq<Path> | IncludePath(src, p, ps)
        ensures GoodEnd(src, ps, {})
      {
        SuccessMeansGoodPaths(src, p, {}, ps);
      }
    } else {
      var ps := ErrorHasPath(src, p, {});
      assert IncludePath(src, p, ps) && !GoodEnd(src, ps, {});
    }
  }

  // A reported cycle is a cycle: the named file is reached from the root twice on one path.
  lemma ReportedCycleIsReal(src: Sources, p: Path) returns (ps: seq<Path>, i: nat)
    requires ParseFile(src, p, {}).Err? && ParseFile(src, p, {}).error.CircularInclude?
    ensures IncludePath(src, p, ps) && i < |ps| - 1
    ensures ps[i] == ps[|ps| - 1] == ParseFile(src, p, {}).error.path
  {
    ps := ErrorHasPath(src, p, {});
    i :| 0 <= i < |ps| - 1 && ps[..|ps| - 1][i] == ps[|ps| - 1];
  }

  // ----- the splice: what a successful parse returns -----

  // The vendor of a line: the nearest BEGIN-VENDOR above it in the same file, unless
  // an END-VENDOR comes between.
  function VendorAbove(src: Sources, p: Path, i: nat): string
    requires p in src.files && i <= |src.files[p]|
    decreases i
  {
    if i == 0 then ""
    else match DirectiveAt(src, p, i - 1)
         case BeginVendor(name) => name
         case EndVendor => ""
         case _ => VendorAbove(src, p, i - 1)
  }

  // The lines of a file in order, each $INCLUDE replaced by the splice of its target,
  // to a given depth.
  function Splice(src: Sources, p: Path, depth: nat): Dict
    decreases depth
  {
    if depth == 0 || p !in src.files then EMPTY else SpliceFrom(src, p, 0, depth)
  }

  function SpliceFrom(src: Sources, p: Path, i: nat, depth: nat): Dict
    requires depth > 0 && p in src.files && i <= |src.files[p]|
    decreases depth, |src.files[p]| - i
  {
    if i == |src.files[p]| then EMPTY
    else
      var d := DirectiveAt(src, p, i);
      Append(if d.Include? then Splice(src, src.resolve(p, d.argument), depth - 1)
             else Entry(d, VendorAbove(src, p, i)),
             SpliceFrom(src, p, i + 1, depth))
  }

  lemma {:induction false} ParsedIsSplice(src: Sources, p: Path, visited: set<Path>, depth: nat)
    requires ParseFile(src, p, visited).Ok? && depth >= |src.files.Keys - visited|
    ensures ParseFile(src, p, visited).value == Splice(src, p, depth)
    decreases |src.files.Keys - visited|, 0
  {
    Shrinks(src.files.Keys, visited, p);
    LinesAreSplice(src, p, 0, visited + {p}, depth);
  }

  lemma {:induction false} LinesAreSplice(src: Sources, p: Path, i: nat, visited: set<Path>, depth: nat)
    requires p in src.files && i <= |src.files[p]| && depth > |src.files.Keys - visited|
    requires ParseLines(src, p, i, VendorAbove(src, p, i), visited).Ok?
    ensures ParseLines(src, p, i, VendorAbove(src, p, i), visited).value == SpliceFrom(src, p, i, depth)
    decreases |src.files.Keys - visited|, |src.files[p]| - i + 1
  {
    if i < |src.files[p]| {
      var d := DirectiveAt(src, p, i);
      assert NextContext(d, VendorAbove(src, p, i)) == VendorAbove(src, p, i + 1);
      if d.Include? {
        ParsedIsSplice(src, src.resolve(p, d.argument), visited, depth - 1);
      }
      LinesAreSplice(src, p, i + 1, visited, depth);
    }
  }

  // The result of a successful parse is the in-order splice, and unrolling the
  // includes further than the number of files adds nothing.
  lemma ParseResultIsSplice(src: Sources, p: Path, depth: nat)
    requires ParseFile(src, p, {}).Ok? && depth >= |src.files|
    ensures ParseFile(src, p, {}).value == Splice(src, p, depth)
  {
    assert src.files.Keys - {} == src.files.Keys;
    assert |src.files.Keys| == |src.files|;
    ParsedIsSplice(src, p, {}, depth);
  }

  // ----- what is in it, line by line -----

  // A line of a file.
  datatype Spot = Spot(path: Path, line: nat)

  // What the line asks for; nothing where there is no such line.
  function DirectiveOf(src: Sources, at: Spot): Directive {
    if at.path in src.files && at.line < |src.files[at.path]| then DirectiveAt(src, at.path, at.line) else Skip
  }

  function VendorOf(src: Sources, at: Spot): string {
    if at.path in src.files && at.line <= |src.files[at.path]| then VendorAbove(src, at.path, at.line) else ""
  }

  // The lines read for a file, in order, each $INCLUDE replaced by those of its target,
  // to a given depth.
  function Trace(src: Sources, p: Path, depth: nat): seq<Spot>
    decreases depth
  {
    if depth == 0 || p !in src.files then [] else TraceFrom(src, p, 0, depth)
  }

  function TraceFrom(src: Sources, p: Path, i: nat, depth: nat): seq<Spot>
    requires depth > 0 && p in src.files && i <= |src.files[p]|
    decreases depth, |src.files[p]| - i
  {
    if i == |src.files[p]| then []
    else
      var d := DirectiveAt(src, p, i);
      (if d.Include? then Trace(src, src.resolve(p, d.argument), depth - 1) else [Spot(p, i)]) + TraceFrom(src, p, i + 1, depth)
  }

  // What a line adds: an attribute under the vendor above it, a value, a vendor.
  function AttributeOf(src: Sources, at: Spot): seq<Attr> {
    match DirectiveOf(src, at)
    case Attribute(a) => [Attr(a.name, a.typ, a.valueType, a.encrypt, a.hasTag, VendorOf(src, at))]
    case _ => []
  }

  function ValueOf(src: Sources, at: Spot): seq<Val> {
    match DirectiveOf(src, at)
    case Value(v) => [v]
    case _ => []
  }

  function VendorIdOf(src: Sources, at: Spot): seq<Vendor> {
    match DirectiveOf(src, at)
    case VendorId(v) => [v]
    case _ => []
  }

  function AttributesOf(src: Sources, spots: seq<Spot>): seq<Attr> {
    if spots == [] then [] else AttributeOf(src, spots[0]) + AttributesOf(src, spots[1..])
  }

  function ValuesOf(src: Sources, spots: seq<Spot>): seq<Val> {
    if spots == [] then [] else ValueOf(src, spots[0]) + ValuesOf(src, spots[1..])
  }

  function VendorsOf(src: Sources, spots: seq<Spot>): seq<Vendor> {
    if spots == [] then [] else VendorIdOf(src, spots[0]) + VendorsOf(src, spots[1..])
  }

  function Contents(src: Sources, spots: seq<Spot>): Dict {
    Dict(AttributesOf(src, spots), ValuesOf(src, spots), VendorsOf(src, spots))
  }

  function OneLine(src: Sources, at: Spot): Dict {
    Dict(AttributeOf(src, at), ValueOf(src, at), VendorIdOf(src, at))
  }

  lemma {:induction false} ContentsAppend(src: Sources, xs: seq<Spot>, ys: seq<Spot>)
    ensures Contents(src, xs + ys) == Append(Contents(src, xs), Contents(src, ys))
  {
    if xs == [] {
      assert xs + ys == ys;
      AppendAssoc(Contents(src, ys), EMPTY, EMPTY);
    } else {
      assert (xs + ys)[0] == xs[0] && (xs + ys)[1..] == xs[1..] + ys;
      ContentsAppend(src, xs[1..], ys);
      ContentsCons(src, xs);
      ContentsCons(src, xs + ys);
      AppendAssoc(OneLine(src, xs[0]), Contents(src, xs[1..]), Contents(src, ys));
    }
  }

  lemma ContentsCons(src: Sources, xs: seq<Spot>)
    requires xs != []
    ensures Contents(src, xs) == Append(OneLine(src, xs[0]), Contents(src, xs[1..]))
  {
  }

  lemma OneLineEntry(src: Sources, p: Path, i: nat)
    requires p in src.files && i < |src.files[p]| && !DirectiveAt(src, p, i).Include?
    ensures OneLine(src, Spot(p, i)) == Entry(DirectiveAt(src, p, i), VendorAbove(src, p, i))
  {
  }

  lemma OneSpot(src: Sources, at: Spot)
    ensures Contents(src, [at]) == OneLine(src, at)
  {
    ContentsCons(src, [at]);
    assert [at][1..] == [];
    AppendAssoc(OneLine(src, at), EMPTY, EMPTY);
  }

  lemma {:induction false} SpliceContents(src: Sources, p: Path, depth: nat)
    ensures Splice(src, p, depth) == Contents(src, Trace(src, p, depth))
    decreases depth
  {
    if depth > 0 && p in src.files {
      SpliceFromContents(src, p, 0, depth);
    }
  }

  lemma {:induction false} SpliceFromContents(src: Sources, p: Path, i: nat, depth: nat)
    requires depth > 0 && p in src.files && i <= |src.files[p]|
    ensures SpliceFrom(src, p, i, depth) == Contents(src, TraceFrom(src, p, i, depth))
    decreases depth, |src.files[p]| - i
  {
    if i < |src.files[p]| {
      var d := DirectiveAt(src, p, i);
      SpliceFromContents(src, p, i + 1, depth);
      if d.Include? {
        var q := src.resolve(p, d.argument);
        SpliceContents(src, q, depth - 1);
        ContentsAppend(src, Trace(src, q, depth - 1), TraceFrom(src, p, i + 1, depth));
      } else {
        OneSpot(src, Spot(p, i));
        OneLineEntry(src, p, i);
        ContentsAppend(src, [Spot(p, i)], TraceFrom(src, p, i + 1, depth));
      }
    }
  }

  // A successful parse returns, in the order of the lines read, one attribute for every
  // ATTRIBUTE line, under the vendor above it in its own file, one value for every VALUE
  // line and one vendor for every VENDOR line.
  lemma ParsedContents(src: Sources, p: Path, depth: nat)
    requires ParseFile(src, p, {}).Ok? && depth >= |src.files|
    ensures (var d, lines := ParseFile(src, p, {}).value, Trace(src, p, depth);
             d.attributes == AttributesOf(src, lines) && d.values == ValuesOf(src, lines) && d.vendors == VendorsOf(src, lines))
  {
    ParseResultIsSplice(src, p, depth);
    SpliceContents(src, p, depth);
  }

  // The vendor above a line is the one whose BEGIN-VENDOR was not followed by another
  // BEGIN-VENDOR or an END-VENDOR in the same file.
  lemma {:induction false} VendorAboveIff(src: Sources, p: Path, i: nat, name: string)
    requires p in src.files && i <= |src.files[p]| && name != ""
    ensures VendorAbove(src, p, i) == name
       <==> exists j: nat ::
              j < i && DirectiveAt(src, p, j) == BeginVendor(name)
              && forall k :: j < k < i ==> !DirectiveAt(src, p, k).BeginVendor? && !DirectiveAt(src, p, k).EndVendor?
    decreases i
  {
    if i > 0 {
      VendorAboveIff(src, p, i - 1, name);
      var d := DirectiveAt(src, p, i - 1);
      if d == BeginVendor(name) {
        assert i - 1 < i && DirectiveAt(src, p, i - 1) == BeginVendor(name);
      }
    }
  }

  // ----- which lines are read -----

  // The last file of an include path has such a line.
  ghost predicate OnPath(src: Sources, p: Path, ps: seq<Path>, at: Spot) {
    && IncludePath(src, p, ps) && ps[|ps| - 1] == at.path
    && at.path in src.files && at.line < |src.files[at.path]| && !DirectiveAt(src, at.path, at.line).Include?
  }

  lemma {:induction false} TracedOnPath(src: Sources, p: Path, depth: nat, at: Spot) returns (ps: seq<Path>)
    requires at in Trace(src, p, depth)
    ensures OnPath(src, p, ps, at)
    decreases depth
  {
    ps := TracedFromOnPath(src, p, 0, depth, at);
  }

  lemma {:induction false} TracedFromOnPath(src: Sources, p: Path, i: nat, depth: nat, at: Spot) returns (ps: seq<Path>)
    requires depth > 0 && p in src.files && i <= |src.files[p]| && at in TraceFrom(src, p, i, depth)
    ensures OnPath(src, p, ps, at)
    decreases depth, |src.files[p]| - i
  {
    var d := DirectiveAt(src, p, i);
    if at in TraceFrom(src, p, i + 1, depth) {
      ps := TracedFromOnPath(src, p, i + 1, depth, at);
    } else if d.Include? {
      var q := src.resolve(p, d.argument);
      var qs := TracedOnPath(src, q, depth - 1, at);
      assert Mentions(src, p, i, q);
      PathCons(src, p, qs);
      ps := [p] + qs;
    } else {
      ps := [p];
    }
  }

  lemma {:induction false} LineInTrace(src: Sources, p: Path, i: nat, j: nat, depth: nat, at: Spot)
    requires depth > 0 && p in src.files && i <= j < |src.files[p]|
    requires (var d := DirectiveAt(src, p, j);
              if d.Include? then at in Trace(src, src.resolve(p, d.argument), depth - 1) else at == Spot(p, j))
    ensures at in TraceFrom(src, p, i, depth)
    decreases j - i
  {
    if i < j {
      LineInTrace(src, p, i + 1, j, depth, at);
    }
  }

  lemma {:induction false} OnPathTraced(src: Sources, p: Path, visited: set<Path>, depth: nat, ps: seq<Path>, at: Spot)
    requires ParseFile(src, p, visited).Ok? && depth >= |src.files.Keys - visited| && OnPath(src, p, ps, at)
    ensures at in Trace(src, p, depth)
    decreases |ps|
  {
    Shrinks(src.files.Keys, visited, p);
    if |ps| == 1 {
      LineInTrace(src, p, 0, at.line, depth, at);
    } else {
      PathTail(src, p, ps);
      var i: nat :| Mentions(src, p, i, ps[1]);
      EveryLineParses(src, p, 0, "", visited + {p}, i);
      OnPathTraced(src, ps[1], visited + {p}, depth - 1, ps[1..], at);
      LineInTrace(src, p, 0, i, depth, at);
    }
  }

  // The lines read are exactly those at the end of some include path.
  lemma TracedIff(src: Sources, p: Path, depth: nat, at: Spot)
    requires ParseFile(src, p, {}).Ok? && depth >= |src.files|
    ensures at in Trace(src, p, depth) <==> exists ps: seq<Path> :: OnPath(src, p, ps, at)
  {
    assert src.files.Keys - {} == src.files.Keys && |src.files.Keys| == |src.files|;
    if at in Trace(src, p, depth) {
      var ps := TracedOnPath(src, p, depth, at);
    }
    if ps: seq<Path> :| OnPath(src, p, ps, at) {
      OnPathTraced(src, p, {}, depth, ps, at);
    }
  }
}
