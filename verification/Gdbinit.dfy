/** The debugger script the builder writes, and what a debugger makes of it. */
module Gdbinit {
  import opened Memories
  import opened Crt0
  import opened Fae
  import opened Linked

  datatype Variable = FlashBase | RamBase | Crt0Text | Text | Got | Data | RelGot | RelData | Bss | FlashEnd | RamEnd

  datatype Section = Crt0Code | Rom | GotTable | RomRam | Ram

  /** `set $name = $base + offset`, or add-symbol-file with a variable for each section. */
  datatype Line = Set(name: Variable, base: Variable, offset: nat) | AddSymbols(places: map<Section, Variable>)

  /** The lines after the two the user fills in with $flash_base and $ram_base. */
  function Script(s: Symbols, metadataSize: nat): seq<Line> {
    [ Set(Crt0Text, FlashBase, 0),
      Set(Text, Crt0Text, metadataSize),
      Set(Got, Text, s.romSize),
      Set(Data, Got, s.gotSize),
      Set(RelGot, RamBase, 0),
      Set(RelData, RelGot, s.gotSize),
      Set(Bss, RelData, s.dataSize),
      AddSymbols(map[Crt0Code := Crt0Text]),
      AddSymbols(map[Rom := Text, GotTable := RelGot, RomRam := RelData, Ram := Bss]),
      Set(FlashEnd, FlashBase, metadataSize + s.romSize + s.gotSize + s.dataSize),
      Set(RamEnd, RamBase, s.gotSize + s.dataSize + s.bssSize) ]
  }

  /** A debugger session: its convenience variables and where it believes sections to be. */
  datatype Session = Session(vars: map<Variable, int>, loaded: map<Section, int>)

  function Value(g: Session, v: Variable): int {
    if v in g.vars then g.vars[v] else 0
  }

  function Step(line: Line, g: Session): Session {
    match line
    case Set(name, base, offset) => g.(vars := g.vars[name := Value(g, base) + offset])
    case AddSymbols(places) => g.(loaded := g.loaded + map k | k in places :: Value(g, places[k]))
  }

  /** The session after the lines from i on. */
  function Run(lines: seq<Line>, i: nat, g: Session): Session
    requires i <= |lines|
    decreases |lines| - i
  {
    if i == |lines| then g else Run(lines, i + 1, Step(lines[i], g))
  }

  function Debug(s: Symbols, metadataSize: nat, flashBase: int, ramBase: int): Session {
    Run(Script(s, metadataSize), 0, Session(map[FlashBase := flashBase, RamBase := ramBase], map[]))
  }

  lemma AfterSet(g: Session, name: Variable, base: Variable, offset: nat)
    ensures var g' := Step(Set(name, base, offset), g);
      g'.loaded == g.loaded && forall v :: Value(g', v) == if v == name then Value(g, base) + offset else Value(g, v)
  {
  }

  lemma AfterAdd(g: Session, places: map<Section, Variable>)
    ensures var g' := Step(AddSymbols(places), g);
      && (forall v :: Value(g', v) == Value(g, v)) && g'.loaded.Keys == g.loaded.Keys + places.Keys
      && forall k :: k in g'.loaded ==> g'.loaded[k] == if k in places then Value(g, places[k]) else g.loaded[k]
  {
  }

  lemma RunStep(lines: seq<Line>, i: nat, g: Session)
    requires i < |lines|
    ensures Run(lines, i, g) == Run(lines, i + 1, Step(lines[i], g))
  {
  }

  /** The session behind the seven lines that set section addresses. */
  function AfterSeven(l: seq<Line>, g: Session): Session
    requires |l| >= 7
  {
    Step(l[6], Step(l[5], Step(l[4], Step(l[3], Step(l[2], Step(l[1], Step(l[0], g)))))))
  }

  lemma RunEleven(l: seq<Line>, g: Session)
    requires |l| == 11
    ensures Run(l, 0, g) == Step(l[10], Step(l[9], Step(l[8], Step(l[7], AfterSeven(l, g)))))
  {
    assert forall g :: Run(l, 11, g) == g;
    hide Run, Step;
    var g1 := Step(l[0], g);
    var g2 := Step(l[1], g1);
    var g3 := Step(l[2], g2);
    var g4 := Step(l[3], g3);
    var g5 := Step(l[4], g4);
    var g6 := Step(l[5], g5);
    var g7 := Step(l[6], g6);
    var g8 := Step(l[7], g7);
    var g9 := Step(l[8], g8);
    RunStep(l, 0, g);
    RunStep(l, 1, g1);
    RunStep(l, 2, g2);
    RunStep(l, 3, g3);
    RunStep(l, 4, g4);
    RunStep(l, 5, g5);
    RunStep(l, 6, g6);
    RunStep(l, 7, g7);
    RunStep(l, 8, g8);
    RunStep(l, 9, g9);
    RunStep(l, 10, Step(l[9], g9));
  }

  lemma AddressesRight(s: Symbols, metadataSize: nat, g: Session)
    ensures var g' := AfterSeven(Script(s, metadataSize), g);
      && g'.loaded == g.loaded
      && Value(g', FlashBase) == Value(g, FlashBase) && Value(g', RamBase) == Value(g, RamBase)
      && Value(g', Crt0Text) == Value(g, FlashBase)
      && Value(g', Text) == Value(g, FlashBase) + metadataSize
      && Value(g', Got) == Value(g, FlashBase) + metadataSize + s.romSize
      && Value(g', Data) == Value(g, FlashBase) + metadataSize + s.romSize + s.gotSize
      && Value(g', RelGot) == Value(g, RamBase)
      && Value(g', RelData) == Value(g, RamBase) + s.gotSize
      && Value(g', Bss) == Value(g, RamBase) + s.gotSize + s.dataSize
  {
    hide Step, Value;
    var l := Script(s, metadataSize);
    var g1 := Step(l[0], g);
    var g2 := Step(l[1], g1);
    var g3 := Step(l[2], g2);
    var g4 := Step(l[3], g3);
    var g5 := Step(l[4], g4);
    var g6 := Step(l[5], g5);
    AfterSet(g, Crt0Text, FlashBase, 0);
    AfterSet(g1, Text, Crt0Text, metadataSize);
    AfterSet(g2, Got, Text, s.romSize);
    AfterSet(g3, Data, Got, s.gotSize);
    AfterSet(g4, RelGot, RamBase, 0);
    AfterSet(g5, RelData, RelGot, s.gotSize);
    AfterSet(g6, Bss, RelData, s.dataSize);
  }

  lemma SymbolsRight(s: Symbols, metadataSize: nat, g: Session)
    requires g.loaded == map[]
    ensures var l := Script(s, metadataSize);
      var g' := Step(l[10], Step(l[9], Step(l[8], Step(l[7], g))));
      && (forall v :: v != FlashEnd && v != RamEnd ==> Value(g', v) == Value(g, v))
      && Value(g', FlashEnd) == Value(g, FlashBase) + metadataSize + s.romSize + s.gotSize + s.dataSize
      && Value(g', RamEnd) == Value(g, RamBase) + s.gotSize + s.dataSize + s.bssSize
      && g'.loaded.Keys == {Crt0Code, Rom, GotTable, RomRam, Ram}
      && g'.loaded[Crt0Code] == Value(g, Crt0Text) && g'.loaded[Rom] == Value(g, Text)
      && g'.loaded[GotTable] == Value(g, RelGot) && g'.loaded[RomRam] == Value(g, RelData)
      && g'.loaded[Ram] == Value(g, Bss)
  {
    hide Step, Value;
    var l := Script(s, metadataSize);
    var g8 := Step(l[7], g);
    var g9 := Step(l[8], g8);
    var g10 := Step(l[9], g9);
    AfterAdd(g, map[Crt0Code := Crt0Text]);
    AfterAdd(g8, map[Rom := Text, GotTable := RelGot, RomRam := RelData, Ram := Bss]);
    AfterSet(g9, FlashEnd, FlashBase, metadataSize + s.romSize + s.gotSize + s.dataSize);
    AfterSet(g10, RamEnd, RamBase, s.gotSize + s.dataSize + s.bssSize);
  }

  /** The whole script in one go. */
  lemma ScriptRuns(s: Symbols, metadataSize: nat, flashBase: int, ramBase: int)
    ensures var g := Debug(s, metadataSize, flashBase, ramBase);
      && Value(g, Text) == flashBase + metadataSize
      && Value(g, Got) == flashBase + metadataSize + s.romSize
      && Value(g, Data) == flashBase + metadataSize + s.romSize + s.gotSize
      && Value(g, RelGot) == ramBase
      && Value(g, RelData) == ramBase + s.gotSize
      && Value(g, Bss) == ramBase + s.gotSize + s.dataSize
      && Value(g, FlashEnd) == flashBase + metadataSize + s.romSize + s.gotSize + s.dataSize
      && Value(g, RamEnd) == ramBase + s.gotSize + s.dataSize + s.bssSize
      && g.loaded.Keys == {Crt0Code, Rom, GotTable, RomRam, Ram}
      && g.loaded[Crt0Code] == flashBase && g.loaded[Rom] == Value(g, Text) && g.loaded[GotTable] == Value(g, RelGot)
      && g.loaded[RomRam] == Value(g, RelData) && g.loaded[Ram] == Value(g, Bss)
  {
    var g0 := Session(map[FlashBase := flashBase, RamBase := ramBase], map[]);
    assert Value(g0, FlashBase) == flashBase && Value(g0, RamBase) == ramBase;
    var l := Script(s, metadataSize);
    assert |l| == 11;
    RunEleven(l, g0);
    AddressesRight(s, metadataSize, g0);
    assert Debug(s, metadataSize, flashBase, ramBase) == Run(l, 0, g0);
    hide Step, Value, Run, AfterSeven, Debug;
    SymbolsRight(s, metadataSize, AfterSeven(l, g0));
  }

  /** For every place a well-formed file is loaded at, the debugger and the loader agree on
      every section address, on the end of the partition and on the end of the used RAM. */
  lemma DebuggerAgrees(b: Parts, m: Memory, e: Env)
    requires WellFormed(b) && Programmed(b, m, e)
    ensures MagicOk(m, e)
    ensures var g, s := Debug(b.symbols, b.PartitionAt(), e.binBase, e.ramStart), SectionsOf(m, e);
      && Value(g, Text) == s.rom && Value(g, Got) == s.got && Value(g, Data) == s.data
      && Value(g, RelGot) == s.relGot && Value(g, RelData) == s.relData && Value(g, Bss) == s.relBss
      && Value(g, FlashEnd) == e.binBase + b.Raw() && Value(g, RamEnd) == e.ramStart + RamNeeded(s)
      && g.loaded.Keys == {Crt0Code, Rom, GotTable, RomRam, Ram}
      && g.loaded[Crt0Code] == e.binBase && g.loaded[Rom] == s.rom && g.loaded[GotTable] == s.relGot
      && g.loaded[RomRam] == s.relData && g.loaded[Ram] == s.relBss
  {
    SectionsRoundTrip(b, m, e);
    ScriptRuns(b.symbols, b.PartitionAt(), e.binBase, e.ramStart);
    hide Debug, Value, SectionsOf, MagicOk, File;
  }
}
