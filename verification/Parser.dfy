// dictionary/parser/parser.go: from the tokens of a line to its directive.
module Parser {
  import opened Bytes
  import opened Includes

  // strconv.ParseUint (base 0, at most so many bits) and strconv.Atoi are arguments.
  datatype Numbers = Numbers(parseUint: (string, nat) -> Option<nat>, atoi: string -> Option<int>)

  // ----- one ATTRIBUTE -----

  predicate IsValueType(s: string) {
    s in {"string", "integer", "ipaddr", "ipv6addr", "octets", "vsa", "extended", "raw"}
  }

  function NormalizeValueType(token: string): (s: string)
    ensures IsValueType(s)
    ensures s == "string" <==> token in {"string", "text"}
    ensures s == "ipaddr" <==> token in {"ipaddr", "ipv4addr"}
    ensures s == "octets" <==> token in {"octets", "octet", "abinary"}
    ensures s in {"integer", "ipv6addr", "vsa", "extended"} || token in {"integer", "ipv6addr", "vsa", "extended"} ==> s == token
  {
    if token == "string" || token == "text" then "string"
    else if token == "integer" then "integer"
    else if token == "ipaddr" || token == "ipv4addr" then "ipaddr"
    else if token == "ipv6addr" then "ipv6addr"
    else if token == "octets" || token == "octet" || token == "abinary" then "octets"
    else if token == "vsa" then "vsa"
    else if token == "extended" then "extended"
    else "raw"
  }

  function ParseAttrNumber(num: Numbers, s: string): Option<byte> {
    match num.parseUint(s, 16)
    case Some(n) => if n > 255 then None else Some(n as byte)
    case None => None
  }

  const ENCRYPT := "encrypt="
  const HAS_TAG := "has_tag"

  function ApplyFlag(num: Numbers, attr: Attr, flag: string): Option<Attr> {
    if flag == HAS_TAG then Some(attr.(hasTag := true))
    else if ENCRYPT <= flag then
      match num.atoi(flag[|ENCRYPT|..])
      case Some(v) => Some(attr.(encrypt := v))
      case None => None
    else Some(attr)
  }

  function ApplyFlags(num: Numbers, attr: Attr, flags: seq<string>): Option<Attr>
    decreases |flags|
  {
    if flags == [] then Some(attr)
    else
      match ApplyFlag(num, attr, flags[0])
      case Some(next) => ApplyFlags(num, next, flags[1..])
      case None => None
  }

  function ParseAttribute(num: Numbers, args: seq<string>): Option<Attr> {
    if |args| < 3 then None
    else
      match ParseAttrNumber(num, args[1])
      case None => None
      case Some(n) => ApplyFlags(num, Attr(args[0], n, NormalizeValueType(args[2]), 0, false, ""), args[3..])
  }

  // The flag loop of handleAttribute.
  method HandleAttribute(num: Numbers, args: seq<string>) returns (r: Option<Attr>)
    ensures r == ParseAttribute(num, args)
  {
    if |args| < 3 {
      return None;
    }
    var n := ParseAttrNumber(num, args[1]);
    if n.None? {
      return None;
    }
    var attr := Attr(args[0], n.value, NormalizeValueType(args[2]), 0, false, "");
    ghost var start, flags := attr, args[3..];
    for i := 3 to |args|
      invariant ApplyFlags(num, attr, args[i..]) == ApplyFlags(num, start, flags)
    {
      assert args[i..][0] == args[i] && args[i..][1..] == args[i + 1..];
      var next := ApplyFlag(num, attr, args[i]);
      if next.None? {
        return None;
      }
      attr := next.value;
    }
    return Some(attr);
  }

  predicate IsEncrypt(flag: string) {
    ENCRYPT <= flag
  }

  predicate BadFlag(num: Numbers, flag: string) {
    IsEncrypt(flag) && num.atoi(flag[|ENCRYPT|..]).None?
  }

  lemma OneFlag(num: Numbers, attr: Attr, flag: string)
    ensures ApplyFlag(num, attr, flag)
         == if BadFlag(num, flag) then None
            else Some(attr.(hasTag := attr.hasTag || flag == HAS_TAG,
                            encrypt := if IsEncrypt(flag) then num.atoi(flag[|ENCRYPT|..]).value else attr.encrypt))
  {
    assert |HAS_TAG| < |ENCRYPT|;
  }

  // Flags are accepted exactly when every encrypt= flag holds a number.
  lemma {:induction false} FlagsAcceptedIff(num: Numbers, attr: Attr, flags: seq<string>)
    ensures ApplyFlags(num, attr, flags).Some? <==> forall i :: 0 <= i < |flags| ==> !BadFlag(num, flags[i])
    decreases |flags|
  {
    if flags != [] {
      OneFlag(num, attr, flags[0]);
      var next := ApplyFlag(num, attr, flags[0]);
      if next.Some? {
        FlagsAcceptedIff(num, next.value, flags[1..]);
        assert forall i :: 1 <= i < |flags| ==> flags[i] == flags[1..][i - 1];
      }
    }
  }

  // The value of the last encrypt= flag, if there is one.
  function LastEncrypt(num: Numbers, flags: seq<string>): Option<int> {
    if flags == [] then None
    else if IsEncrypt(flags[|flags| - 1]) then num.atoi(flags[|flags| - 1][|ENCRYPT|..])
    else LastEncrypt(num, flags[..|flags| - 1])
  }

  // Flag `k` is the last one that starts with encrypt=.
  ghost predicate LastAt(flags: seq<string>, k: nat) {
    k < |flags| && "encrypt=" <= flags[k] && forall j :: k < j < |flags| ==> !("encrypt=" <= flags[j])
  }

  lemma LastAtSnoc(flags: seq<string>, k: nat)
    requires k < |flags| - 1
    ensures LastAt(flags, k) <==> LastAt(flags[..|flags| - 1], k) && !("encrypt=" <= flags[|flags| - 1])
  {
    var front := flags[..|flags| - 1];
    assert forall j :: 0 <= j < |front| ==> front[j] == flags[j];
  }

  lemma {:induction false} LastEncryptIff(num: Numbers, flags: seq<string>, v: int)
    ensures LastEncrypt(num, flags) == Some(v)
       <==> exists k: nat :: LastAt(flags, k) && num.atoi(flags[k][8..]) == Some(v)
    decreases |flags|
  {
    if flags != [] {
      var n := |flags| - 1;
      LastEncryptIff(num, flags[..n], v);
      forall k: nat | k < n
        ensures LastAt(flags, k) <==> LastAt(flags[..n], k) && !IsEncrypt(flags[n])
        ensures flags[..n][k] == flags[k]
      {
        LastAtSnoc(flags, k);
      }
      assert IsEncrypt(flags[n]) ==> LastAt(flags, n);
    }
  }

  lemma {:induction false} ApplyFlagsSnoc(num: Numbers, attr: Attr, flags: seq<string>, flag: string)
    ensures ApplyFlags(num, attr, flags + [flag])
         == match ApplyFlags(num, attr, flags) { case Some(r) => ApplyFlag(num, r, flag) case None => None }
    decreases |flags|
  {
    if flags == [] {
      assert (flags + [flag])[1..] == [];
    } else {
      assert (flags + [flag])[1..] == flags[1..] + [flag];
      var next := ApplyFlag(num, attr, flags[0]);
      if next.Some? {
        ApplyFlagsSnoc(num, next.value, flags[1..], flag);
      }
    }
  }

  // Accepted flags change nothing but the tag mark and the encryption: the tag is
  // set exactly when has_tag occurs, and the last encrypt= flag wins.
  lemma {:induction false} FlagsMeaning(num: Numbers, attr: Attr, flags: seq<string>)
    requires ApplyFlags(num, attr, flags).Some?
    ensures ApplyFlags(num, attr, flags).value
         == attr.(hasTag := attr.hasTag || HAS_TAG in flags,
                  encrypt := match LastEncrypt(num, flags) { case Some(v) => v case None => attr.encrypt })
    decreases |flags|
  {
    if flags != [] {
      var n := |flags| - 1;
      assert flags == flags[..n] + [flags[n]];
      ApplyFlagsSnoc(num, attr, flags[..n], flags[n]);
      FlagsMeaning(num, attr, flags[..n]);
      OneFlag(num, ApplyFlags(num, attr, flags[..n]).value, flags[n]);
    }
  }

  // ----- one line -----

  function Classify(num: Numbers, line: Line): Directive {
    if line == [] then Skip
    else
      var args := line[1..];
      if line[0] == "$INCLUDE" then
        if |args| != 1 then Malformed else Include(args[0])
      else if line[0] == "ATTRIBUTE" then
        match ParseAttribute(num, args)
        case Some(attr) => Directive.Attribute(attr)
        case None => Malformed
      else if line[0] == "VALUE" then ClassifyValue(num, args)
      else if line[0] == "VENDOR" then ClassifyVendor(num, args)
      else if line[0] == "BEGIN-VENDOR" then
        if |args| != 1 then Malformed else BeginVendor(args[0])
      else if line[0] == "END-VENDOR" then EndVendor
      else Skip // ALIAS, BEGIN-TLV and the like, and every unknown directive
  }

  function ClassifyValue(num: Numbers, args: Line): Directive {
    if |args| != 3 then Malformed
    else
      match num.parseUint(args[2], 64)
      case Some(n) => Value(Val(args[0], args[1], n))
      case None => Malformed
  }

  function ClassifyVendor(num: Numbers, args: Line): Directive {
    if |args| < 2 then Malformed
    else
      match num.parseUint(args[1], 32)
      case Some(id) => VendorId(Vendor(args[0], id))
      case None => Malformed
  }

  // The sources of a parse: real files, each line classified by the code above.
  function SourcesOf(num: Numbers, files: map<Path, seq<Line>>, resolve: (Path, string) -> Path): Sources {
    Sources(files, line => Classify(num, line), resolve)
  }

  // What every ATTRIBUTE line yields: the first word as its name, never empty, and a
  // value type the runtime dictionary knows.
  lemma AttributeLine(num: Numbers, line: Line)
    requires Classify(num, line).Attribute?
    ensures (var attr := Classify(num, line).attr;
             |line| >= 4 && attr.name == line[1] && attr.name != "" && IsValueType(attr.valueType))
  {
    var args := line[1..];
    var n := ParseAttrNumber(num, args[1]);
    FlagsMeaning(num, Attr(args[0], n.value, NormalizeValueType(args[2]), 0, false, ""), args[3..]);
  }

  // ----- every directive, by its words -----

  // The words of an ATTRIBUTE line and the attribute they describe.
  ghost predicate Describes(num: Numbers, line: Line, attr: Attr) {
    && |line| >= 4 && line[0] == "ATTRIBUTE"
    && num.parseUint(line[2], 16) == Some(attr.typ as nat)
    && (forall i :: 4 <= i < |line| && "encrypt=" <= line[i] ==> num.atoi(line[i][8..]).Some?)
    && attr.name == line[1] && attr.valueType == NormalizeValueType(line[3]) && attr.vendor == ""
    && (attr.hasTag <==> "has_tag" in line[4..])
    && attr.encrypt == match LastEncrypt(num, line[4..]) { case Some(v) => v case None => 0 }
  }

  lemma AttributeIff(num: Numbers, line: Line, attr: Attr)
    ensures Classify(num, line) == Directive.Attribute(attr) <==> Describes(num, line, attr)
  {
    if |line| >= 4 && line[0] == "ATTRIBUTE" {
      var args := line[1..];
      assert args[0] == line[1] && args[1] == line[2] && args[2] == line[3] && args[3..] == line[4..];
      var n := ParseAttrNumber(num, args[1]);
      if n.Some? {
        var start := Attr(args[0], n.value, NormalizeValueType(args[2]), 0, false, "");
        FlagsAcceptedIff(num, start, args[3..]);
        GoodFlags(num, line);
        if ApplyFlags(num, start, args[3..]).Some? {
          FlagsMeaning(num, start, args[3..]);
        }
      }
    }
  }

  lemma GoodFlags(num: Numbers, line: Line)
    requires |line| >= 4
    ensures (forall i :: 0 <= i < |line[4..]| ==> !BadFlag(num, line[4..][i]))
       <==> (forall i :: 4 <= i < |line| && "encrypt=" <= line[i] ==> num.atoi(line[i][8..]).Some?)
  {
    var flags := line[4..];
    if forall i :: 0 <= i < |flags| ==> !BadFlag(num, flags[i]) {
      forall i | 4 <= i < |line| && "encrypt=" <= line[i]
        ensures num.atoi(line[i][8..]).Some?
      {
        assert !BadFlag(num, flags[i - 4]);
      }
    }
    if forall i :: 4 <= i < |line| && "encrypt=" <= line[i] ==> num.atoi(line[i][8..]).Some? {
      forall i | 0 <= i < |flags|
        ensures !BadFlag(num, flags[i])
      {
        assert flags[i] == line[i + 4];
      }
    }
  }

  // The other directives: a VALUE line names the attribute, the value and its number, a
  // VENDOR line the vendor and its number and anything after them.
  lemma DirectiveIff(num: Numbers, line: Line, val: Val, vendor: Vendor, word: string)
    ensures Classify(num, line) == Value(val)
       <==> |line| == 4 && line[0] == "VALUE" && line[1] == val.attributeName && line[2] == val.name
            && num.parseUint(line[3], 64) == Some(val.number)
    ensures Classify(num, line) == VendorId(vendor)
       <==> |line| >= 3 && line[0] == "VENDOR" && line[1] == vendor.name && num.parseUint(line[2], 32) == Some(vendor.id)
    ensures Classify(num, line) == Include(word) <==> |line| == 2 && line[0] == "$INCLUDE" && line[1] == word
    ensures Classify(num, line) == BeginVendor(word) <==> |line| == 2 && line[0] == "BEGIN-VENDOR" && line[1] == word
    ensures Classify(num, line) == EndVendor <==> |line| >= 1 && line[0] == "END-VENDOR"
  {
  }

  // A line is refused exactly when its directive is one of five and it has too few words,
  // or, for three of these, too many, or a number or flag that does not parse. All other
  // directives are skipped.
  lemma MalformedIff(num: Numbers, line: Line)
    ensures Classify(num, line) == Malformed
       <==> |line| >= 1
            && (((line[0] == "$INCLUDE" || line[0] == "BEGIN-VENDOR") && |line| != 2)
                || (line[0] == "ATTRIBUTE" && forall attr :: !Describes(num, line, attr))
                || (line[0] == "VALUE" && (|line| != 4 || num.parseUint(line[3], 64).None?))
                || (line[0] == "VENDOR" && (|line| < 3 || num.parseUint(line[2], 32).None?)))
    ensures Classify(num, line) == Skip
       <==> |line| == 0 || line[0] !in {"$INCLUDE", "ATTRIBUTE", "VALUE", "VENDOR", "BEGIN-VENDOR", "END-VENDOR"}
  {
    if |line| >= 1 && line[0] == "ATTRIBUTE" {
      var d := Classify(num, line);
      if d.Attribute? {
        AttributeIff(num, line, d.attr);
      } else {
        forall attr
          ensures !Describes(num, line, attr)
        {
          AttributeIff(num, line, attr);
        }
      }
    }
  }

  // Which numbers an ATTRIBUTE line may carry.
  lemma AttrNumberIff(num: Numbers, s: string, n: byte)
    ensures ParseAttrNumber(num, s) == Some(n) <==> num.parseUint(s, 16) == Some(n as nat)
  {
  }
}
