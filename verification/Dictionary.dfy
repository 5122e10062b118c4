// dictionary/dictionary.go and dictionary/register.go: two indexes over one set of
// definitions, where the last registration of a Type or of a Name wins.
module Dictionary {
  import opened Bytes
  import opened Includes
  import Parser

  datatype ValueType = TypeString | TypeInteger | TypeIPAddr | TypeIPv6Addr | TypeOctets | TypeVSA | TypeExtended | TypeRaw

  datatype Def = Def(typ: byte, name: string, valueType: ValueType, encrypt: int, hasTag: bool)

  datatype Indexes = Indexes(byType: map<byte, Def>, byName: map<string, Def>)

  // ----- one registration -----

  // The two indexes are mutually inverse.
  ghost predicate Consistent(d: Indexes) {
    && (forall t :: t in d.byType ==>
          d.byType[t].typ == t && d.byType[t].name in d.byName && d.byName[d.byType[t].name] == d.byType[t])
    && (forall n :: n in d.byName ==>
          d.byName[n].name == n && d.byName[n].typ in d.byType && d.byType[d.byName[n].typ] == d.byName[n])
  }

  function Registered(d: Indexes, def: Def): Indexes {
    var byName := if def.typ in d.byType && d.byType[def.typ].name != def.name
                  then d.byName - {d.byType[def.typ].name} else d.byName;
    var byType := if def.name in byName && byName[def.name].typ != def.typ
                  then d.byType - {byName[def.name].typ} else d.byType;
    Indexes(byType[def.typ := def], byName[def.name := def])
  }

  // `e` is what the dictionary says about its Type.
  predicate Has(d: Indexes, e: Def) {
    e.typ in d.byType && d.byType[e.typ] == e
  }

  predicate Collide(a: Def, b: Def) {
    a.typ == b.typ || a.name == b.name
  }

  lemma RegisteredConsistent(d: Indexes, def: Def)
    requires Consistent(d)
    ensures Consistent(Registered(d, def))
  {
  }

  // A registration adds its definition and removes exactly those that share its Type
  // or its Name.
  lemma RegisteredHas(d: Indexes, def: Def, e: Def)
    requires Consistent(d)
    ensures Has(Registered(d, def), e) <==> e == def || (Has(d, e) && !Collide(e, def))
  {
  }

  // By Name the dictionary says the same.
  lemma NameAgrees(d: Indexes, e: Def)
    requires Consistent(d)
    ensures Has(d, e) <==> e.name in d.byName && d.byName[e.name] == e
  {
  }

  // ----- a list of registrations -----

  function RegisteredAll(d: Indexes, defs: seq<Def>): Indexes {
    if defs == [] then d else Registered(RegisteredAll(d, defs[..|defs| - 1]), defs[|defs| - 1])
  }

  lemma {:induction false} RegisteredAllConsistent(d: Indexes, defs: seq<Def>)
    requires Consistent(d)
    ensures Consistent(RegisteredAll(d, defs))
  {
    if defs != [] {
      RegisteredAllConsistent(d, defs[..|defs| - 1]);
      RegisteredConsistent(RegisteredAll(d, defs[..|defs| - 1]), defs[|defs| - 1]);
    }
  }

  predicate Clear(defs: seq<Def>, from: nat, e: Def) {
    forall j :: from <= j < |defs| ==> !Collide(e, defs[j])
  }

  // No later definition shares the Type or the Name of definition `i`.
  predicate Survives(defs: seq<Def>, i: nat) {
    i < |defs| && Clear(defs, i + 1, defs[i])
  }

  lemma ClearSnoc(defs: seq<Def>, from: nat, e: Def)
    requires defs != [] && from < |defs|
    ensures Clear(defs, from, e) <==> Clear(defs[..|defs| - 1], from, e) && !Collide(e, defs[|defs| - 1])
  {
    var front := defs[..|defs| - 1];
    assert forall j :: 0 <= j < |front| ==> front[j] == defs[j];
    if Clear(defs, from, e) {
      forall j | from <= j < |front|
        ensures !Collide(e, front[j])
      {
        assert !Collide(e, defs[j]);
      }
    }
  }

  // `e` is in the list, and is its last word on its Type and on its Name.
  ghost predicate Wins(defs: seq<Def>, e: Def) {
    exists i: nat :: Survives(defs, i) && defs[i] == e
  }

  lemma SurvivesSnoc(defs: seq<Def>, i: nat)
    requires i < |defs| - 1
    ensures defs[..|defs| - 1][i] == defs[i]
    ensures Survives(defs, i) <==> Survives(defs[..|defs| - 1], i) && !Collide(defs[i], defs[|defs| - 1])
  {
    ClearSnoc(defs, i + 1, defs[i]);
  }

  lemma WinsBefore(defs: seq<Def>, e: Def, i: nat)
    requires Survives(defs, i) && defs[i] == e && i < |defs| - 1
    ensures Wins(defs[..|defs| - 1], e) && !Collide(e, defs[|defs| - 1])
  {
    SurvivesSnoc(defs, i);
  }

  lemma WinsStill(defs: seq<Def>, e: Def, i: nat)
    requires defs != [] && Survives(defs[..|defs| - 1], i) && defs[i] == e && !Collide(e, defs[|defs| - 1])
    ensures Wins(defs, e)
  {
    SurvivesSnoc(defs, i);
  }

  lemma WinsLast(defs: seq<Def>)
    requires defs != []
    ensures Wins(defs, defs[|defs| - 1])
  {
    assert Survives(defs, |defs| - 1);
  }

  lemma WinsSnoc(defs: seq<Def>, e: Def)
    requires defs != []
    ensures Wins(defs, e) <==> e == defs[|defs| - 1] || (Wins(defs[..|defs| - 1], e) && !Collide(e, defs[|defs| - 1]))
  {
    WinsLast(defs);
    if Wins(defs, e) && e != defs[|defs| - 1] {
      var i: nat :| Survives(defs, i) && defs[i] == e;
      WinsBefore(defs, e, i);
    }
    if Wins(defs[..|defs| - 1], e) && !Collide(e, defs[|defs| - 1]) {
      var i: nat :| Survives(defs[..|defs| - 1], i) && defs[..|defs| - 1][i] == e;
      WinsStill(defs, e, i);
    }
  }

  // Last write wins: after the list, an entry is there exactly when it survives in
  // the list, or was there before and nothing in the list collides with it.
  lemma {:induction false} LastWriteWins(d: Indexes, defs: seq<Def>, e: Def)
    requires Consistent(d)
    ensures Has(RegisteredAll(d, defs), e) <==> Wins(defs, e) || (Has(d, e) && Clear(defs, 0, e))
    decreases |defs|
  {
    if defs != [] {
      var front := defs[..|defs| - 1];
      RegisteredAllConsistent(d, front);
      RegisteredHas(RegisteredAll(d, front), defs[|defs| - 1], e);
      LastWriteWins(d, front, e);
      ClearSnoc(defs, 0, e);
      WinsSnoc(defs, e);
    }
  }

  const EMPTY_INDEXES := Indexes(map[], map[])

  function SurvivorsOf(defs: seq<Def>): set<nat> {
    set i: nat | i < |defs| && Survives(defs, i)
  }

  function TypesOf(defs: seq<Def>, s: set<nat>): set<byte> {
    set i | i in s && i < |defs| :: defs[i].typ
  }

  lemma {:induction false} DistinctTypes(defs: seq<Def>, s: set<nat>)
    requires forall i :: i in s ==> Survives(defs, i)
    ensures |TypesOf(defs, s)| == |s|
    decreases s
  {
    if s == {} {
      assert TypesOf(defs, s) == {};
    } else {
      var i :| i in s;
      var rest := s - {i};
      DistinctTypes(defs, rest);
      forall j | j in rest
        ensures defs[j].typ != defs[i].typ
      {
        assert Survives(defs, i) && Survives(defs, j);
        if i < j { assert !Collide(defs[i], defs[j]); } else { assert !Collide(defs[j], defs[i]); }
      }
      assert TypesOf(defs, s) == TypesOf(defs, rest) + {defs[i].typ};
    }
  }

  // A dictionary built from scratch holds as many entries as definitions survive.
  lemma SizeIsSurvivorCount(defs: seq<Def>)
    ensures (var d := RegisteredAll(EMPTY_INDEXES, defs);
             |d.byType| == |d.byName| == |SurvivorsOf(defs)|)
  {
    var d := RegisteredAll(EMPTY_INDEXES, defs);
    var s := SurvivorsOf(defs);
    RegisteredAllConsistent(EMPTY_INDEXES, defs);
    forall t | t in d.byType
      ensures t in TypesOf(defs, s)
    {
      LastWriteWins(EMPTY_INDEXES, defs, d.byType[t]);
      var i: nat :| Survives(defs, i) && defs[i] == d.byType[t];
      assert i in s;
    }
    forall t | t in TypesOf(defs, s)
      ensures t in d.byType
    {
      var i :| i in s && defs[i].typ == t;
      LastWriteWins(EMPTY_INDEXES, defs, defs[i]);
    }
    assert d.byType.Keys == TypesOf(defs, s);
    DistinctTypes(defs, s);
    SameSize(d);
  }

  lemma WithoutKey<K, V>(m: map<K, V>, k: K)
    requires k in m
    ensures |m| == |m - {k}| + 1
  {
    assert m.Keys == (m - {k}).Keys + {k};
    assert |m.Keys| == |(m - {k}).Keys| + 1;
  }

  lemma RemoveOne(d: Indexes, t: byte)
    requires Consistent(d) && t in d.byType
    ensures (var smaller := Indexes(d.byType - {t}, d.byName - {d.byType[t].name});
             Consistent(smaller) && |d.byType| == |smaller.byType| + 1 && |d.byName| == |smaller.byName| + 1)
  {
    WithoutKey(d.byType, t);
    WithoutKey(d.byName, d.byType[t].name);
  }

  lemma {:induction false} SameSize(d: Indexes)
    requires Consistent(d)
    ensures |d.byType| == |d.byName|
    decreases |d.byType|
  {
    assert forall n :: n in d.byName ==> d.byName[n].typ in d.byType;
    if t :| t in d.byType {
      RemoveOne(d, t);
      SameSize(Indexes(d.byType - {t}, d.byName - {d.byType[t].name}));
    } else {
      assert d.byType.Keys == {} && d.byName.Keys == {};
      assert |d.byType.Keys| == 0 && |d.byName.Keys| == 0;
    }
  }

  // ----- dictionary/register.go -----

  function MapValueType(s: string): Option<ValueType> {
    if s == "string" then Some(TypeString)
    else if s == "integer" then Some(TypeInteger)
    else if s == "ipaddr" then Some(TypeIPAddr)
    else if s == "ipv6addr" then Some(TypeIPv6Addr)
    else if s == "octets" then Some(TypeOctets)
    else if s == "vsa" then Some(TypeVSA)
    else if s == "extended" then Some(TypeExtended)
    else if s == "raw" || s == "" then Some(TypeRaw)
    else None
  }

  lemma MapValueTypeIff(s: string, vt: ValueType)
    ensures MapValueType(s) == Some(vt)
       <==> match vt
            case TypeString => s == "string"
            case TypeInteger => s == "integer"
            case TypeIPAddr => s == "ipaddr"
            case TypeIPv6Addr => s == "ipv6addr"
            case TypeOctets => s == "octets"
            case TypeVSA => s == "vsa"
            case TypeExtended => s == "extended"
            case TypeRaw => s == "raw" || s == ""
  {
  }

  // Which type the runtime dictionary gives an attribute whose line has this type token.
  lemma TokenTypeIff(token: string, vt: ValueType)
    ensures MapValueType(Parser.NormalizeValueType(token)) == Some(vt)
       <==> match vt
            case TypeString => token in {"string", "text"}
            case TypeInteger => token == "integer"
            case TypeIPAddr => token in {"ipaddr", "ipv4addr"}
            case TypeIPv6Addr => token == "ipv6addr"
            case TypeOctets => token in {"octets", "octet", "abinary"}
            case TypeVSA => token == "vsa"
            case TypeExtended => token == "extended"
            case TypeRaw => token !in {"string", "text", "integer", "ipaddr", "ipv4addr", "ipv6addr", "octets", "octet",
                                       "abinary", "vsa", "extended"}
  {
  }

  // The definition an entry of a parsed dictionary stands for.
  function DefOf(attr: Attr): Option<Def> {
    match MapValueType(attr.valueType)
    case None => None
    case Some(vt) =>
      if attr.name == "" then None else Some(Def(attr.typ, attr.name, vt, attr.encrypt, attr.hasTag))
  }

  // The definitions of the entries in front of the first one that is refused.
  function DefsOf(attrs: seq<Attr>): (defs: seq<Def>)
    ensures |defs| <= |attrs|
    decreases |attrs|
  {
    if attrs == [] || DefOf(attrs[0]).None? then []
    else [DefOf(attrs[0]).value] + DefsOf(attrs[1..])
  }

  lemma {:induction false} DefsOfAt(attrs: seq<Attr>, i: nat)
    requires i < |DefsOf(attrs)|
    ensures DefOf(attrs[i]) == Some(DefsOf(attrs)[i])
    decreases i
  {
    if i > 0 {
      DefsOfAt(attrs[1..], i - 1);
    }
  }

  lemma {:induction false} DefsOfStops(attrs: seq<Attr>)
    requires |DefsOf(attrs)| < |attrs|
    ensures DefOf(attrs[|DefsOf(attrs)|]).None?
    decreases |attrs|
  {
    if DefOf(attrs[0]).Some? {
      DefsOfStops(attrs[1..]);
    }
  }

  lemma {:induction false} DefsOfReaches(attrs: seq<Attr>, i: nat)
    requires i <= |attrs| && forall j :: 0 <= j < i ==> DefOf(attrs[j]).Some?
    ensures i <= |DefsOf(attrs)|
    decreases i
  {
    if i > 0 {
      assert forall j :: 0 <= j < i - 1 ==> attrs[1..][j] == attrs[j + 1];
      DefsOfReaches(attrs[1..], i - 1);
    }
  }

  datatype RegisterError = EmptyName | UnknownValueType(token: string)

  class Registry {
    var byType: map<byte, Def>
    var byName: map<string, Def>

    function Entries(): Indexes
      reads this
    {
      Indexes(byType, byName)
    }

    constructor ()
      ensures Entries() == EMPTY_INDEXES
    {
      byType, byName := map[], map[];
    }

    method Register(def: Def) returns (ok: bool)
      modifies this
      ensures ok <==> def.name != ""
      ensures Entries() == if ok then Registered(old(Entries()), def) else old(Entries())
    {
      if def.name == "" {
        return false;
      }
      if def.typ in byType && byType[def.typ].name != def.name {
        byName := byName - {byType[def.typ].name};
      }
      if def.name in byName && byName[def.name].typ != def.typ {
        byType := byType - {byName[def.name].typ};
      }
      byType := byType[def.typ := def];
      byName := byName[def.name := def];
      return true;
    }

    method Lookup(t: byte) returns (def: Option<Def>)
      requires Consistent(Entries())
      ensures forall e: Def :: def == Some(e) <==> Has(Entries(), e) && e.typ == t
    {
      def := if t in byType then Some(byType[t]) else None;
    }

    method LookupName(name: string) returns (def: Option<Def>)
      requires Consistent(Entries())
      ensures forall e: Def :: def == Some(e) <==> Has(Entries(), e) && e.name == name
    {
      def := if name in byName then Some(byName[name]) else None;
      forall e: Def | e.name == name
        ensures Has(Entries(), e) <==> name in byName && byName[name] == e
      {
        NameAgrees(Entries(), e);
      }
      forall e: Def
        ensures def == Some(e) <==> Has(Entries(), e) && e.name == name
      {
        if name in byName { assert byName[name].name == name; }
      }
    }

    method Size() returns (n: nat)
      requires Consistent(Entries())
      ensures n == |Entries().byType| == |Entries().byName|
    {
      SameSize(Entries());
      n := |byType|;
    }

    // Registers entry after entry; at the first one refused it stops with an error,
    // and the earlier ones stay registered.
    method RegisterFromDict(p: Dict) returns (err: Option<RegisterError>)
      modifies this
      ensures Entries() == RegisteredAll(old(Entries()), DefsOf(p.attributes))
      ensures err == None <==> |DefsOf(p.attributes)| == |p.attributes|
      ensures err.Some? ==>
                (var first := p.attributes[|DefsOf(p.attributes)|];
                 err.value == if MapValueType(first.valueType) == None then UnknownValueType(first.valueType) else EmptyName)
    {
      var attrs := p.attributes;
      ghost var defs := DefsOf(attrs);
      assert defs[..0] == [];
      for i := 0 to |attrs|
        invariant i <= |defs|
        invariant Entries() == RegisteredAll(old(Entries()), defs[..i])
      {
        var vt := MapValueType(attrs[i].valueType);
        if vt == None || attrs[i].name == "" {
          if i < |defs| { DefsOfAt(attrs, i); }
          assert i == |defs| && defs[..i] == defs;
          return Some(if vt == None then UnknownValueType(attrs[i].valueType) else EmptyName);
        }
        if i == |defs| { DefsOfStops(attrs); }
        DefsOfAt(attrs, i);
        var ok := Register(Def(attrs[i].typ, attrs[i].name, vt.value, attrs[i].encrypt, attrs[i].hasTag));
        assert defs[..i + 1][..i] == defs[..i];
      }
      assert defs[..|attrs|] == defs;
      return None;
    }
  }

  // ----- from a file to the dictionary -----

  predicate Registrable(attr: Attr) {
    attr.name != "" && Parser.IsValueType(attr.valueType)
  }

  lemma RegistrableHasDef(attr: Attr)
    requires Registrable(attr)
    ensures DefOf(attr).Some?
  {
  }

  ghost predicate AllRegistrable(attrs: seq<Attr>) {
    forall i :: 0 <= i < |attrs| ==> Registrable(attrs[i])
  }

  lemma {:induction false} ParsedFileRegistrable(src: Sources, num: Parser.Numbers, p: Path, visited: set<Path>)
    requires src.classify == (line => Parser.Classify(num, line))
    requires ParseFile(src, p, visited).Ok?
    ensures AllRegistrable(ParseFile(src, p, visited).value.attributes)
    decreases |src.files.Keys - visited|, 0
  {
    Shrinks(src.files.Keys, visited, p);
    ParsedLinesRegistrable(src, num, p, 0, "", visited + {p});
  }

  lemma {:induction false} ParsedLinesRegistrable(src: Sources, num: Parser.Numbers, p: Path, i: nat, ctx: string,
                                                  visited: set<Path>)
    requires src.classify == (line => Parser.Classify(num, line))
    requires p in src.files && i <= |src.files[p]| && ParseLines(src, p, i, ctx, visited).Ok?
    ensures AllRegistrable(ParseLines(src, p, i, ctx, visited).value.attributes)
    decreases |src.files.Keys - visited|, |src.files[p]| - i + 1
  {
    if i < |src.files[p]| {
      var d := DirectiveAt(src, p, i);
      if d.Include? {
        ParsedFileRegistrable(src, num, src.resolve(p, d.argument), visited);
      } else if d.Attribute? {
        Parser.AttributeLine(num, src.files[p][i]);
      }
      ParsedLinesRegistrable(src, num, p, i + 1, NextContext(d, ctx), visited);
    }
  }

  // Every dictionary file that parses registers completely: no parsed entry is
  // refused, whatever its type token was.
  lemma ParsedFilesRegister(num: Parser.Numbers, files: map<Path, seq<Line>>, resolve: (Path, string) -> Path, p: Path)
    requires ParseFile(Parser.SourcesOf(num, files, resolve), p, {}).Ok?
    ensures (var attrs := ParseFile(Parser.SourcesOf(num, files, resolve), p, {}).value.attributes;
             |DefsOf(attrs)| == |attrs|)
  {
    var src := Parser.SourcesOf(num, files, resolve);
    ParsedFileRegistrable(src, num, p, {});
    var attrs := ParseFile(src, p, {}).value.attributes;
    forall j | 0 <= j < |attrs|
      ensures DefOf(attrs[j]).Some?
    {
      RegistrableHasDef(attrs[j]);
    }
    DefsOfReaches(attrs, |attrs|);
  }

  // ----- what the dictionary says after loading a file -----

  // The entry of a parsed dictionary, as a definition.
  ghost predicate Stands(attr: Attr, e: Def) {
    e.typ == attr.typ && e.name == attr.name && MapValueType(attr.valueType) == Some(e.valueType)
    && e.encrypt == attr.encrypt && e.hasTag == attr.hasTag
  }

  // No later entry shares the Type or the Name of entry `i`.
  ghost predicate LastWord(attrs: seq<Attr>, i: nat) {
    i < |attrs| && forall j :: i < j < |attrs| ==> attrs[j].typ != attrs[i].typ && attrs[j].name != attrs[i].name
  }

  // The entries that are registered: those in front of the first one without a name or with
  // an unknown value type.
  lemma DefsOfIff(attrs: seq<Attr>, n: nat)
    requires n <= |attrs|
    ensures |DefsOf(attrs)| == n
       <==> (forall i :: 0 <= i < n ==> attrs[i].name != "" && MapValueType(attrs[i].valueType).Some?)
            && (n < |attrs| ==> attrs[n].name == "" || MapValueType(attrs[n].valueType).None?)
  {
    var m := |DefsOf(attrs)|;
    forall i | 0 <= i < m
      ensures DefOf(attrs[i]).Some?
    {
      DefsOfAt(attrs, i);
    }
    if m < |attrs| {
      DefsOfStops(attrs);
    }
  }

  lemma StandsAt(attrs: seq<Attr>, i: nat, e: Def)
    requires i < |DefsOf(attrs)|
    ensures DefsOf(attrs)[i] == e <==> Stands(attrs[i], e)
  {
    DefsOfAt(attrs, i);
  }

  lemma SurvivesIff(attrs: seq<Attr>, i: nat)
    requires |DefsOf(attrs)| == |attrs| && i < |attrs|
    ensures Survives(DefsOf(attrs), i) <==> LastWord(attrs, i)
  {
    var defs := DefsOf(attrs);
    StandsAt(attrs, i, defs[i]);
    forall j | i < j < |attrs|
      ensures Collide(defs[i], defs[j]) <==> attrs[j].typ == attrs[i].typ || attrs[j].name == attrs[i].name
    {
      StandsAt(attrs, j, defs[j]);
    }
  }

  // After loading, the dictionary holds exactly the entries that have the last word on
  // their Type and their Name, with all they said.
  lemma LoadedIff(attrs: seq<Attr>, e: Def)
    requires |DefsOf(attrs)| == |attrs|
    ensures Has(RegisteredAll(EMPTY_INDEXES, DefsOf(attrs)), e)
       <==> exists i: nat :: LastWord(attrs, i) && Stands(attrs[i], e)
  {
    var defs := DefsOf(attrs);
    LastWriteWins(EMPTY_INDEXES, defs, e);
    if Wins(defs, e) {
      var i: nat :| Survives(defs, i) && defs[i] == e;
      SurvivesIff(attrs, i);
      StandsAt(attrs, i, e);
      assert LastWord(attrs, i) && Stands(attrs[i], e);
    }
    if i: nat :| LastWord(attrs, i) && Stands(attrs[i], e) {
      SurvivesIff(attrs, i);
      StandsAt(attrs, i, e);
      assert Survives(defs, i) && defs[i] == e;
    }
  }

  // From the files to the dictionary: it holds exactly what the ATTRIBUTE lines read for the
  // file say, the last word on each Type and Name.
  lemma LoadedFileIff(num: Parser.Numbers, files: map<Path, seq<Line>>, resolve: (Path, string) -> Path, p: Path, e: Def)
    requires ParseFile(Parser.SourcesOf(num, files, resolve), p, {}).Ok?
    ensures (var src := Parser.SourcesOf(num, files, resolve);
             var attrs := AttributesOf(src, Trace(src, p, |files|));
             Has(RegisteredAll(EMPTY_INDEXES, DefsOf(ParseFile(src, p, {}).value.attributes)), e)
             <==> exists i: nat :: LastWord(attrs, i) && Stands(attrs[i], e))
  {
    var src := Parser.SourcesOf(num, files, resolve);
    ParsedContents(src, p, |files|);
    ParsedFilesRegister(num, files, resolve, p);
    LoadedIff(ParseFile(src, p, {}).value.attributes, e);
  }
}
