// dictionary/parser/parser.go: the parser objects that walk the files.
module Loader {
  import Bytes
  import opened Includes

  // The map of paths on the include stack, shared by all parsers of one ParseFile.
  class Stack {
    var visited: set<Path>

    constructor ()
      ensures visited == {}
    {
      visited := {};
    }
  }

  class FileParser {
    var d: Dict
    var vendorCtx: string
    const abs: Path
    const stack: Stack

    constructor (abs: Path, stack: Stack)
      ensures d == EMPTY && vendorCtx == "" && this.abs == abs && this.stack == stack
    {
      d, vendorCtx := EMPTY, "";
      this.abs, this.stack := abs, stack;
    }

    // One input line: what it adds, and the vendor context it leaves.
    method ReadLine(src: Sources, i: nat) returns (err: Bytes.Option<ParseError>)
      requires abs in src.files && i < |src.files[abs]|
      modifies this, stack
      ensures stack.visited == old(stack.visited)
      ensures match ParseLine(src, abs, i, old(vendorCtx), old(stack.visited))
              case Ok(here) => err == Bytes.None && d == Append(old(d), here)
              case Err(e) => err == Bytes.Some(e)
      ensures vendorCtx == NextContext(DirectiveAt(src, abs, i), old(vendorCtx))
      decreases |src.files.Keys - stack.visited|, 1
    {
      err := Bytes.None;
      NothingAdded(d);
      match DirectiveAt(src, abs, i)
      case Malformed =>
        err := Bytes.Some(BadLine(abs, i + 1));
      case Include(argument) =>
        var sub := LoadFile(src, src.resolve(abs, argument), stack);
        if sub.Err? {
          err := Bytes.Some(sub.error);
        } else {
          d := Append(d, sub.value);
        }
      case Attribute(attr) =>
        d := d.(attributes := d.attributes + [attr.(vendor := vendorCtx)]);
      case Value(val) =>
        d := d.(values := d.values + [val]);
      case VendorId(vendor) =>
        d := d.(vendors := d.vendors + [vendor]);
      case BeginVendor(name) =>
        vendorCtx := name;
      case EndVendor =>
        vendorCtx := "";
      case Skip =>
    }
  }

  lemma NothingAdded(d: Dict)
    ensures d.attributes + [] == d.attributes && d.values + [] == d.values && d.vendors + [] == d.vendors
  {
  }

  // parseFile: pushes the path, reads every line, and pops the path again whatever
  // happens.
  method LoadFile(src: Sources, abs: Path, stack: Stack) returns (r: Parsed<Dict>)
    modifies stack
    ensures stack.visited == old(stack.visited)
    ensures r == ParseFile(src, abs, stack.visited)
    decreases |src.files.Keys - stack.visited|, 0
  {
    if abs in stack.visited {
      return Err(CircularInclude(abs));
    }
    if abs !in src.files {
      return Err(CannotOpen(abs));
    }
    ghost var before := stack.visited;
    Shrinks(src.files.Keys, before, abs);
    stack.visited := stack.visited + {abs};
    var p := new FileParser(abs, stack);
    r := ReadAll(src, p);
    stack.visited := stack.visited - {abs};
    assert before + {abs} - {abs} == before;
  }

  // parse: the scanner loop.
  method ReadAll(src: Sources, p: FileParser) returns (r: Parsed<Dict>)
    requires p.abs in src.files && p.d == EMPTY && p.vendorCtx == ""
    modifies p, p.stack
    ensures p.stack.visited == old(p.stack.visited)
    ensures r == ParseLines(src, p.abs, 0, "", old(p.stack.visited))
    decreases |src.files.Keys - p.stack.visited|, 2
  {
    var n := |src.files[p.abs]|;
    ghost var visited := p.stack.visited;
    PrependEmpty(ParseLines(src, p.abs, 0, "", visited), EMPTY);
    for i := 0 to n
      invariant p.stack.visited == visited
      invariant ParseLines(src, p.abs, 0, "", visited) == Prepend(p.d, ParseLines(src, p.abs, i, p.vendorCtx, visited))
    {
      ghost var acc, ctx := p.d, p.vendorCtx;
      var err := p.ReadLine(src, i);
      if err.Some? {
        return Err(err.value);
      }
      PrependLine(src, p.abs, i, ctx, visited, acc);
    }
    PrependEmpty(Ok(EMPTY), p.d);
    return Ok(p.d);
  }

  function Prepend(d: Dict, r: Parsed<Dict>): Parsed<Dict> {
    match r
    case Ok(rest) => Ok(Append(d, rest))
    case Err(e) => Err(e)
  }

  lemma PrependEmpty(r: Parsed<Dict>, d: Dict)
    ensures Prepend(EMPTY, r) == r && Prepend(d, Ok(EMPTY)) == Ok(d)
  {
    AppendAssoc(if r.Ok? then r.value else EMPTY, d, d);
    AppendAssoc(d, d, d);
  }

  lemma PrependLine(src: Sources, abs: Path, i: nat, ctx: string, visited: set<Path>, acc: Dict)
    requires abs in src.files && i < |src.files[abs]|
    requires ParseLine(src, abs, i, ctx, visited).Ok?
    ensures Prepend(acc, ParseLines(src, abs, i, ctx, visited))
         == Prepend(Append(acc, ParseLine(src, abs, i, ctx, visited).value),
                    ParseLines(src, abs, i + 1, NextContext(DirectiveAt(src, abs, i), ctx), visited))
  {
    var here := ParseLine(src, abs, i, ctx, visited).value;
    var rest := ParseLines(src, abs, i + 1, NextContext(DirectiveAt(src, abs, i), ctx), visited);
    if rest.Ok? {
      AppendAssoc(acc, here, rest.value);
    }
  }
}
