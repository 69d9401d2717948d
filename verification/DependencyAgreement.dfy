/** When the static reader of dependency options (cmd/gonvex/main.go) finds what running them declares
    (pkg/gonvex/gonvex.go): for every list of options whose arguments are literals, however spelled. */
module DependencyAgreement {
  import opened Texts
  import opened DependencyOptions

  // ---------------------------------------------------------------- what the reader hears

  /** The reader takes notice of the argument. */
  predicate Heard(arg: Arg) {
    arg.readable && !Blank(arg.value)
  }

  /** Nothing is lost: what is not heard is blank. */
  predicate AllHeard(args: seq<Arg>) {
    forall i :: 0 <= i < |args| ==> Heard(args[i]) || Blank(args[i].value)
  }

  function HeardTexts(args: seq<Arg>): seq<Text> {
    if args == [] then []
    else HeardTexts(Init(args)) + (if Heard(Last(args)) then [Trim(Last(args).value)] else [])
  }

  lemma {:induction false} StringsOfLiterals(args: seq<Arg>)
    ensures Strings(Literals(args)) == HeardTexts(args)
    decreases |args|
  {
    if args != [] {
      StringsOfLiterals(Init(args));
      assert Init(Literals(args)) == Literals(Init(args));
    }
  }

  lemma AllHeardLast(args: seq<Arg>)
    requires args != []
    ensures AllHeard(args) <==> AllHeard(Init(args)) && (Heard(Last(args)) || Blank(Last(args).value))
  {
    assert forall i :: 0 <= i < |args| - 1 ==> Init(args)[i] == args[i];
    assert forall i :: 0 <= i < |args| ==> i == |args| - 1 || args[i] == Init(args)[i];
  }

  /** The builders keep every text that is not blank, the reader those it hears: the same ones exactly when nothing
      is lost, and fewer otherwise. */
  lemma {:induction false} HeardExactly(args: seq<Arg>)
    ensures |HeardTexts(args)| <= |Clean(Values(args))|
    ensures AllHeard(args) <==> |HeardTexts(args)| == |Clean(Values(args))|
    ensures AllHeard(args) ==> HeardTexts(args) == Clean(Values(args))
    decreases |args|
  {
    if args != [] {
      HeardExactly(Init(args));
      AllHeardLast(args);
      assert Init(Values(args)) == Values(Init(args)) && Last(Values(args)) == Last(args).value;
    }
  }

  lemma HeardOne(arg: Arg)
    ensures HeardTexts([arg]) == if Heard(arg) then [Trim(arg.value)] else []
  {
    assert Init([arg]) == [];
    assert HeardTexts([]) == [];
  }

  lemma HeardTwo(a: Arg, b: Arg)
    ensures HeardTexts([a, b]) == HeardTexts([a]) + HeardTexts([b])
  {
    assert Init([a, b]) == [a];
    HeardOne(b);
  }

  // ---------------------------------------------------------------- one name after another

  /** What is left when each name replaces the one before. */
  function LastName(names: seq<Arg>): Text {
    if names == [] then [] else Trim(Last(names).value)
  }

  /** What is left when only names that are heard do. */
  function LastHeard(names: seq<Arg>): Text {
    if names == [] then [] else if Heard(Last(names)) then Trim(Last(names).value) else LastHeard(Init(names))
  }

  /** The name at `i` is the last one heard. */
  predicate HeardLastAt(names: seq<Arg>, i: nat) {
    i < |names| && Heard(names[i]) && forall j :: i < j < |names| ==> !Heard(names[j])
  }

  /** The last name heard says `text`; when none is heard, `text` is empty. */
  ghost predicate HeardLast(names: seq<Arg>, text: Text) {
    || (exists i: nat :: HeardLastAt(names, i) && Trim(names[i].value) == text)
    || (text == [] && forall i :: 0 <= i < |names| ==> !Heard(names[i]))
  }

  /** The last name heard says what the last name says. */
  ghost predicate EndsWell(names: seq<Arg>) {
    names == [] || HeardLast(names, Trim(Last(names).value))
  }

  lemma {:induction false} LastHeardSays(names: seq<Arg>, text: Text)
    ensures LastHeard(names) == text <==> HeardLast(names, text)
    decreases |names|
  {
    if names != [] {
      var n := |names| - 1;
      if Heard(Last(names)) {
        assert HeardLastAt(names, n);
        forall i: nat | HeardLastAt(names, i) ensures i == n {
        }
      } else {
        LastHeardSays(Init(names), text);
        OneEarlier(names, text);
      }
    }
  }

  lemma OneEarlier(names: seq<Arg>, text: Text)
    requires names != [] && !Heard(Last(names))
    ensures HeardLast(names, text) <==> HeardLast(Init(names), text)
  {
    forall i: nat ensures HeardLastAt(names, i) <==> HeardLastAt(Init(names), i) {
      assert forall j :: 0 <= j < |names| - 1 ==> Init(names)[j] == names[j];
      assert forall j :: 0 <= j < |names| ==> j == |names| - 1 || names[j] == Init(names)[j];
    }
    assert forall j :: 0 <= j < |names| - 1 ==> Init(names)[j] == names[j];
    assert forall j :: 0 <= j < |names| ==> j == |names| - 1 || names[j] == Init(names)[j];
  }

  lemma LastNamesAgree(names: seq<Arg>)
    ensures LastHeard(names) == LastName(names) <==> EndsWell(names)
  {
    LastHeardSays(names, LastName(names));
  }

  lemma NamesAppend(names: seq<Arg>, name: Arg)
    ensures LastName(names + [name]) == Trim(name.value)
    ensures LastHeard(names + [name]) == if Heard(name) then Trim(name.value) else LastHeard(names)
  {
    InitOfAppend(names, name);
  }

  // ---------------------------------------------------------------- chains

  /** What the reader makes of a chain. */
  function NotedReads(tables: seq<Arg>, calls: seq<ReadCall>): seq<Read> {
    if calls == [] then NewReads(HeardTexts(tables))
    else
      NotedFrom(NotedReads(tables, Init(calls)), 0, CallName(Last(calls)), HeardTexts(CallArgs(Last(calls))))
  }

  function NotedWrites(tables: seq<Arg>, columns: seq<seq<Arg>>): seq<Write> {
    if columns == [] then NewWrites(HeardTexts(tables))
    else ColumnsFrom(NotedWrites(tables, Init(columns)), 0, HeardTexts(Last(columns)))
  }

  lemma {:induction false} ReadsExprParsed(tables: seq<Arg>, calls: seq<ReadCall>, d: Deps)
    ensures Parsed(ReadsExpr(tables, calls), d)
         == (d.(readEntries := d.readEntries + NotedReads(tables, calls)), ReadTarget(|d.readEntries|))
    decreases |calls|
  {
    if calls == [] {
      StringsOfLiterals(tables);
    } else {
      ReadsExprParsed(tables, Init(calls), d);
      StringsOfLiterals(CallArgs(Last(calls)));
      var own := NotedReads(tables, Init(calls));
      var name, values := CallName(Last(calls)), HeardTexts(CallArgs(Last(calls)));
      assert NotedFrom(d.readEntries + own, |d.readEntries|, name, values)
          == d.readEntries + NotedFrom(own, 0, name, values);
    }
  }

  lemma {:induction false} WritesExprParsed(tables: seq<Arg>, columns: seq<seq<Arg>>, d: Deps)
    ensures Parsed(WritesExpr(tables, columns), d)
         == (d.(writeEntries := d.writeEntries + NotedWrites(tables, columns)), WriteTarget(|d.writeEntries|))
    decreases |columns|
  {
    if columns == [] {
      StringsOfLiterals(tables);
    } else {
      WritesExprParsed(tables, Init(columns), d);
      StringsOfLiterals(Last(columns));
      var own, values := NotedWrites(tables, Init(columns)), HeardTexts(Last(columns));
      assert ColumnsFrom(d.writeEntries + own, |d.writeEntries|, values) == d.writeEntries + ColumnsFrom(own, 0, values);
    }
  }

  /** The lists a chain can set. */
  datatype Setting = ColumnList | FilterList | OrderList

  predicate Sets(call: ReadCall, setting: Setting) {
    match setting case ColumnList => call.Columns? case FilterList => call.Filters? case OrderList => call.OrdersBy?
  }

  /** The arguments of the last call that sets the list. */
  function LastArgs(calls: seq<ReadCall>, setting: Setting): seq<Arg> {
    if calls == [] then []
    else if Sets(Last(calls), setting) then CallArgs(Last(calls))
    else LastArgs(Init(calls), setting)
  }

  predicate AnyWindowed(calls: seq<ReadCall>) {
    exists i :: 0 <= i < |calls| && calls[i].Windowed?
  }

  /** The names given to the predicate, in order. */
  function PredicateNames(calls: seq<ReadCall>): seq<Arg> {
    if calls == [] then []
    else PredicateNames(Init(calls)) + (if Last(calls).Predicate? then [Last(calls).name] else [])
  }

  /** The entry of one table: every setting is the last one given. */
  function BuiltEntry(table: Text, calls: seq<ReadCall>): Read {
    Read(table, Clean(Values(LastArgs(calls, ColumnList))), Clean(Values(LastArgs(calls, FilterList))),
         Clean(Values(LastArgs(calls, OrderList))), AnyWindowed(calls), LastName(PredicateNames(calls)))
  }

  /** The entry as read: of the last settings what is heard, and the last predicate that is heard. */
  function NotedEntry(table: Text, calls: seq<ReadCall>): Read {
    Read(table, HeardTexts(LastArgs(calls, ColumnList)), HeardTexts(LastArgs(calls, FilterList)),
         HeardTexts(LastArgs(calls, OrderList)), AnyWindowed(calls), LastHeard(PredicateNames(calls)))
  }

  lemma AnyWindowedLast(calls: seq<ReadCall>)
    requires calls != []
    ensures AnyWindowed(calls) <==> AnyWindowed(Init(calls)) || Last(calls).Windowed?
  {
    assert forall i :: 0 <= i < |calls| - 1 ==> Init(calls)[i] == calls[i];
    if AnyWindowed(calls) && !Last(calls).Windowed? {
      var i :| 0 <= i < |calls| && calls[i].Windowed?;
      assert Init(calls)[i].Windowed?;
    }
  }

  lemma PredicateNamesLast(calls: seq<ReadCall>)
    requires calls != []
    ensures var call, names, before := Last(calls), PredicateNames(calls), PredicateNames(Init(calls));
            && LastName(names) == (if call.Predicate? then Trim(call.name.value) else LastName(before))
            && LastHeard(names)
            == (if call.Predicate? && Heard(call.name) then Trim(call.name.value) else LastHeard(before))
  {
    var before := PredicateNames(Init(calls));
    if Last(calls).Predicate? {
      NamesAppend(before, Last(calls).name);
      assert PredicateNames(calls) == before + [Last(calls).name];
    } else {
      assert PredicateNames(calls) == before + [] == before;
    }
  }

  lemma BuiltEntryLast(table: Text, calls: seq<ReadCall>)
    requires calls != []
    ensures Built(BuiltEntry(table, Init(calls)), Last(calls)) == BuiltEntry(table, calls)
  {
    AnyWindowedLast(calls);
    PredicateNamesLast(calls);
  }

  lemma NotedCall(r: Read, call: ReadCall, values: seq<Text>)
    ensures Noted(r, CallName(call), values)
         == if call.Columns? then r.(columns := values)
            else if call.Filters? then r.(filters := values)
            else if call.OrdersBy? then r.(ordersBy := values)
            else if call.Windowed? then r.(windowed := true)
            else if values != [] then r.(predicateName := values[0])
            else r
  {
  }

  lemma NotedEntryLast(table: Text, calls: seq<ReadCall>)
    requires calls != []
    ensures Noted(NotedEntry(table, Init(calls)), CallName(Last(calls)), HeardTexts(CallArgs(Last(calls))))
         == NotedEntry(table, calls)
  {
    AnyWindowedLast(calls);
    PredicateNamesLast(calls);
    NotedCall(NotedEntry(table, Init(calls)), Last(calls), HeardTexts(CallArgs(Last(calls))));
    if Last(calls).Predicate? {
      HeardOne(Last(calls).name);
    }
  }

  lemma {:induction false} BuiltReadsAt(tables: seq<Arg>, calls: seq<ReadCall>, i: nat)
    ensures |BuiltReads(tables, calls)| == |Clean(Values(tables))|
    ensures i < |Clean(Values(tables))| ==>
              BuiltReads(tables, calls)[i] == BuiltEntry(Clean(Values(tables))[i], calls)
    decreases |calls|
  {
    if calls != [] {
      BuiltReadsAt(tables, Init(calls), i);
      if i < |Clean(Values(tables))| { BuiltEntryLast(Clean(Values(tables))[i], calls); }
    }
  }

  lemma {:induction false} NotedReadsAt(tables: seq<Arg>, calls: seq<ReadCall>, i: nat)
    ensures |NotedReads(tables, calls)| == |HeardTexts(tables)|
    ensures i < |HeardTexts(tables)| ==> NotedReads(tables, calls)[i] == NotedEntry(HeardTexts(tables)[i], calls)
    decreases |calls|
  {
    if calls != [] {
      NotedReadsAt(tables, Init(calls), i);
      if i < |HeardTexts(tables)| { NotedEntryLast(HeardTexts(tables)[i], calls); }
    }
  }

  /** Nothing that decides is lost: of the last columns, filters and orderings, and of the predicate names. */
  ghost predicate ChainHeard(calls: seq<ReadCall>) {
    && AllHeard(LastArgs(calls, ColumnList)) && AllHeard(LastArgs(calls, FilterList))
    && AllHeard(LastArgs(calls, OrderList)) && EndsWell(PredicateNames(calls))
  }

  lemma EntriesAgree(table: Text, calls: seq<ReadCall>)
    ensures NotedEntry(table, calls) == BuiltEntry(table, calls) <==> ChainHeard(calls)
  {
    HeardExactly(LastArgs(calls, ColumnList));
    HeardExactly(LastArgs(calls, FilterList));
    HeardExactly(LastArgs(calls, OrderList));
    LastNamesAgree(PredicateNames(calls));
  }

  /** A chain means the same both ways when no table is lost, and, if it names a table, nothing else is. */
  ghost predicate ReadsHeard(tables: seq<Arg>, calls: seq<ReadCall>) {
    AllHeard(tables) && (Clean(Values(tables)) == [] || ChainHeard(calls))
  }

  lemma ReadsAgreeExactly(tables: seq<Arg>, calls: seq<ReadCall>)
    ensures |NotedReads(tables, calls)| <= |BuiltReads(tables, calls)|
    ensures NotedReads(tables, calls) == BuiltReads(tables, calls) <==> ReadsHeard(tables, calls)
  {
    var noted, built, names := NotedReads(tables, calls), BuiltReads(tables, calls), Clean(Values(tables));
    HeardExactly(tables);
    NotedReadsAt(tables, calls, 0);
    BuiltReadsAt(tables, calls, 0);
    if AllHeard(tables) {
      if names != [] { EntriesAgree(names[0], calls); }
      if names == [] || ChainHeard(calls) {
        forall i | 0 <= i < |names| ensures noted[i] == built[i] {
          NotedReadsAt(tables, calls, i);
          BuiltReadsAt(tables, calls, i);
          EntriesAgree(names[i], calls);
        }
        assert noted == built;
      }
    }
  }

  function LastList(columns: seq<seq<Arg>>): seq<Arg> {
    if columns == [] then [] else Last(columns)
  }

  ghost predicate WritesHeard(tables: seq<Arg>, columns: seq<seq<Arg>>) {
    AllHeard(tables) && (Clean(Values(tables)) == [] || AllHeard(LastList(columns)))
  }

  lemma {:induction false} WritesAt(tables: seq<Arg>, columns: seq<seq<Arg>>, i: nat)
    ensures |NotedWrites(tables, columns)| == |HeardTexts(tables)|
    ensures |BuiltWrites(tables, columns)| == |Clean(Values(tables))|
    ensures i < |HeardTexts(tables)| ==>
              NotedWrites(tables, columns)[i] == Write(HeardTexts(tables)[i], HeardTexts(LastList(columns)))
    ensures i < |Clean(Values(tables))| ==>
              BuiltWrites(tables, columns)[i] == Write(Clean(Values(tables))[i], Clean(Values(LastList(columns))))
    decreases |columns|
  {
    if columns != [] {
      WritesAt(tables, Init(columns), i);
    }
  }

  lemma WritesAgreeExactly(tables: seq<Arg>, columns: seq<seq<Arg>>)
    ensures |NotedWrites(tables, columns)| <= |BuiltWrites(tables, columns)|
    ensures NotedWrites(tables, columns) == BuiltWrites(tables, columns) <==> WritesHeard(tables, columns)
  {
    var noted, built, names := NotedWrites(tables, columns), BuiltWrites(tables, columns), Clean(Values(tables));
    HeardExactly(tables);
    HeardExactly(LastList(columns));
    WritesAt(tables, columns, 0);
    if WritesHeard(tables, columns) {
      forall i | 0 <= i < |names| ensures noted[i] == built[i] {
        WritesAt(tables, columns, i);
      }
      assert noted == built;
    }
  }

  // ---------------------------------------------------------------- lists of options

  function Resolvers(options: seq<DependencyOption>): seq<Arg> {
    if options == [] then []
    else
      Resolvers(Init(options)) + (if Last(options).ShareByVisibility? then [Last(options).resolver] else [])
  }

  /** The arguments of the ShareResultFrom options, in order. */
  function ResultPairs(options: seq<DependencyOption>): seq<(Arg, Arg)> {
    if options == [] then []
    else
      ResultPairs(Init(options))
      + (if Last(options).ShareResultFrom? then [(Last(options).source, Last(options).field)] else [])
  }

  function RunPair(pairs: seq<(Arg, Arg)>): (Text, Text) {
    if pairs == [] then ([], []) else (Trim(Last(pairs).0.value), Trim(Last(pairs).1.value))
  }

  /** The reader has lost some arguments: the first one left is the source, the second one the field. */
  function ReadPair(pairs: seq<(Arg, Arg)>): (Text, Text) {
    if pairs == [] then ([], [])
    else
      var before := ReadPair(Init(pairs));
      var (source, field) := Last(pairs);
      if !Heard(source) && !Heard(field) then before
      else if !Heard(source) then (Trim(field.value), before.1)
      else if !Heard(field) then (Trim(source.value), before.1)
      else (Trim(source.value), Trim(field.value))
  }

  /** What the reader may take for the source: the field, when the source is not heard. */
  function Firsts(pairs: seq<(Arg, Arg)>): seq<Arg> {
    seq(|pairs|, i requires 0 <= i < |pairs| => if Heard(pairs[i].0) then pairs[i].0 else pairs[i].1)
  }

  /** What the reader may take for the field: only a field whose source is heard. */
  function Seconds(pairs: seq<(Arg, Arg)>): seq<Arg> {
    seq(|pairs|, i requires 0 <= i < |pairs| =>
      if Heard(pairs[i].0) then pairs[i].1 else Arg(pairs[i].1.value, false))
  }

  /** What the reader hears last as the source and as the field is what the last pair says. */
  ghost predicate PairsEndWell(pairs: seq<(Arg, Arg)>) {
    pairs == []
    || (HeardLast(Firsts(pairs), Trim(Last(pairs).0.value)) && HeardLast(Seconds(pairs), Trim(Last(pairs).1.value)))
  }

  lemma {:induction false} ReadPairSays(pairs: seq<(Arg, Arg)>)
    ensures ReadPair(pairs) == (LastHeard(Firsts(pairs)), LastHeard(Seconds(pairs)))
    decreases |pairs|
  {
    if pairs != [] {
      ReadPairSays(Init(pairs));
      assert Init(Firsts(pairs)) == Firsts(Init(pairs));
      assert Init(Seconds(pairs)) == Seconds(Init(pairs));
    }
  }

  lemma PairsAgree(pairs: seq<(Arg, Arg)>)
    ensures ReadPair(pairs) == RunPair(pairs) <==> PairsEndWell(pairs)
  {
    ReadPairSays(pairs);
    if pairs != [] {
      LastHeardSays(Firsts(pairs), Trim(Last(pairs).0.value));
      LastHeardSays(Seconds(pairs), Trim(Last(pairs).1.value));
    }
  }

  lemma PairsAppend(pairs: seq<(Arg, Arg)>, source: Arg, field: Arg)
    ensures RunPair(pairs + [(source, field)]) == (Trim(source.value), Trim(field.value))
    ensures ReadPair(pairs + [(source, field)])
         == if !Heard(source) && !Heard(field) then ReadPair(pairs)
            else if !Heard(source) then (Trim(field.value), ReadPair(pairs).1)
            else if !Heard(field) then (Trim(source.value), ReadPair(pairs).1)
            else (Trim(source.value), Trim(field.value))
  {
    InitOfAppend(pairs, (source, field));
  }

  lemma ResolversLast(options: seq<DependencyOption>)
    requires options != []
    ensures Resolvers(options)
         == if Last(options).ShareByVisibility? then Resolvers(Init(options)) + [Last(options).resolver]
            else Resolvers(Init(options))
  {
  }

  lemma ResultPairsLast(options: seq<DependencyOption>)
    requires options != []
    ensures ResultPairs(options)
         == if Last(options).ShareResultFrom?
            then ResultPairs(Init(options)) + [(Last(options).source, Last(options).field)]
            else ResultPairs(Init(options))
  {
  }

  /** What one option adds to the reads and to the writes, read or run. */
  function ReadPiece(option: DependencyOption, read: bool): seq<Read> {
    if !option.Reads? then []
    else if read then NotedReads(option.tables, option.calls) else BuiltReads(option.tables, option.calls)
  }

  function WritePiece(option: DependencyOption, read: bool): seq<Write> {
    if !option.Writes? then []
    else if read then NotedWrites(option.tables, option.columns) else BuiltWrites(option.tables, option.columns)
  }

  function ReadPieces(options: seq<DependencyOption>, read: bool): seq<seq<Read>> {
    seq(|options|, i requires 0 <= i < |options| => ReadPiece(options[i], read))
  }

  function WritePieces(options: seq<DependencyOption>, read: bool): seq<seq<Write>> {
    seq(|options|, i requires 0 <= i < |options| => WritePiece(options[i], read))
  }

  function Flat<T>(pieces: seq<seq<T>>): seq<T> {
    if pieces == [] then [] else Flat(Init(pieces)) + Last(pieces)
  }

  lemma {:induction false} FlatAgrees<T>(a: seq<seq<T>>, b: seq<seq<T>>)
    requires |a| == |b| && forall i :: 0 <= i < |a| ==> |a[i]| <= |b[i]|
    ensures |Flat(a)| <= |Flat(b)|
    ensures Flat(a) == Flat(b) <==> a == b
    decreases |a|
  {
    if a != [] {
      FlatAgrees(Init(a), Init(b));
      LastsAgree(Flat(Init(a)), Last(a), Flat(Init(b)), Last(b));
      assert a == Init(a) + [Last(a)] && b == Init(b) + [Last(b)];
    }
  }

  lemma LastsAgree<T>(a: seq<T>, b: seq<T>, x: seq<T>, y: seq<T>)
    requires |a| <= |x| && |b| <= |y|
    ensures a + b == x + y <==> a == x && b == y
  {
    if a + b == x + y {
      assert |a| + |b| == |x| + |y|;
      assert (a + b)[..|a|] == a && (a + b)[|a|..] == b;
      assert (x + y)[..|x|] == x && (x + y)[|x|..] == y;
    }
  }

  /** Every Reads and Writes option is heard. */
  ghost predicate EntriesHeard(option: DependencyOption) {
    && (option.Reads? ==> ReadsHeard(option.tables, option.calls))
    && (option.Writes? ==> WritesHeard(option.tables, option.columns))
  }

  lemma PiecesAgree(option: DependencyOption)
    ensures |ReadPiece(option, true)| <= |ReadPiece(option, false)|
    ensures |WritePiece(option, true)| <= |WritePiece(option, false)|
    ensures ReadPiece(option, true) == ReadPiece(option, false) && WritePiece(option, true) == WritePiece(option, false)
            <==> EntriesHeard(option)
  {
    if option.Reads? { ReadsAgreeExactly(option.tables, option.calls); }
    if option.Writes? { WritesAgreeExactly(option.tables, option.columns); }
  }

  ghost predicate AllEntriesHeard(options: seq<DependencyOption>) {
    forall i :: 0 <= i < |options| ==> EntriesHeard(options[i])
  }

  lemma AllPiecesAgree(options: seq<DependencyOption>)
    ensures Flat(ReadPieces(options, true)) == Flat(ReadPieces(options, false))
            && Flat(WritePieces(options, true)) == Flat(WritePieces(options, false))
            <==> AllEntriesHeard(options)
  {
    forall i | 0 <= i < |options|
      ensures |ReadPieces(options, true)[i]| <= |ReadPieces(options, false)[i]|
      ensures |WritePieces(options, true)[i]| <= |WritePieces(options, false)[i]|
      ensures EntriesHeard(options[i]) <==>
              ReadPieces(options, true)[i] == ReadPieces(options, false)[i]
              && WritePieces(options, true)[i] == WritePieces(options, false)[i]
    {
      PiecesAgree(options[i]);
    }
    FlatAgrees(ReadPieces(options, true), ReadPieces(options, false));
    FlatAgrees(WritePieces(options, true), WritePieces(options, false));
  }

  /** Reading one option. */
  function ParsedOption(option: DependencyOption, d: Deps): Deps {
    match option
    case Reads(tables, calls) => d.(readEntries := d.readEntries + NotedReads(tables, calls))
    case Writes(tables, columns) => d.(writeEntries := d.writeEntries + NotedWrites(tables, columns))
    case ShareByVisibility(resolver) => if Heard(resolver) then d.(shareByVisibility := Trim(resolver.value)) else d
    case ShareResultFrom(source, field) =>
      if !Heard(source) && !Heard(field) then d
      else if !Heard(source) then d.(shareResultFrom := Trim(field.value))
      else if !Heard(field) then d.(shareResultFrom := Trim(source.value))
      else d.(shareResultFrom := Trim(source.value), shareResultField := Trim(field.value))
    case _ => Applied(option, d)
  }

  lemma OptionParsed(option: DependencyOption, d: Deps)
    ensures Parsed(OptionExpr(option), d).0 == ParsedOption(option, d)
  {
    match option
    case Reads(tables, calls) => ReadsExprParsed(tables, calls, d);
    case Writes(tables, columns) => WritesExprParsed(tables, columns, d);
    case ShareByVisibility(resolver) =>
      StringsOfLiterals([resolver]);
      HeardOne(resolver);
    case ShareResultFrom(source, field) =>
      StringsOfLiterals([source, field]);
      HeardTwo(source, field);
      HeardOne(source);
      HeardOne(field);
    case _ => StringsOfLiterals([]);
  }

  lemma LastParsed(options: seq<DependencyOption>)
    requires options != []
    ensures ParsedAll(OptionExprs(options)) == ParsedOption(Last(options), ParsedAll(OptionExprs(Init(options))))
  {
    assert Init(OptionExprs(options)) == OptionExprs(Init(options));
    OptionParsed(Last(options), ParsedAll(OptionExprs(Init(options))));
  }

  lemma PiecesLast(options: seq<DependencyOption>, read: bool)
    requires options != []
    ensures Flat(ReadPieces(options, read)) == Flat(ReadPieces(Init(options), read)) + ReadPiece(Last(options), read)
    ensures Flat(WritePieces(options, read)) == Flat(WritePieces(Init(options), read)) + WritePiece(Last(options), read)
  {
    assert Init(ReadPieces(options, read)) == ReadPieces(Init(options), read);
    assert Init(WritePieces(options, read)) == WritePieces(Init(options), read);
  }

  /** What one option does to the entries and the resolver, run and read. */
  lemma OptionAdds(option: DependencyOption, d: Deps)
    ensures Applied(option, d).readEntries == d.readEntries + ReadPiece(option, false)
    ensures Applied(option, d).writeEntries == d.writeEntries + WritePiece(option, false)
    ensures ParsedOption(option, d).readEntries == d.readEntries + ReadPiece(option, true)
    ensures ParsedOption(option, d).writeEntries == d.writeEntries + WritePiece(option, true)
  {
  }

  lemma OptionResolves(option: DependencyOption, d: Deps)
    ensures Applied(option, d).shareByVisibility
         == if option.ShareByVisibility? then Trim(option.resolver.value) else d.shareByVisibility
    ensures ParsedOption(option, d).shareByVisibility
         == if option.ShareByVisibility? && Heard(option.resolver) then Trim(option.resolver.value)
            else d.shareByVisibility
  {
  }

  lemma OptionResults(option: DependencyOption, d: Deps)
    ensures var e := Applied(option, d);
            (e.shareResultFrom, e.shareResultField)
            == if option.ShareResultFrom? then (Trim(option.source.value), Trim(option.field.value))
               else (d.shareResultFrom, d.shareResultField)
  {
  }

  lemma OptionReadsResult(option: DependencyOption, d: Deps)
    ensures var e := ParsedOption(option, d);
            (e.shareResultFrom, e.shareResultField)
            == if !option.ShareResultFrom? || (!Heard(option.source) && !Heard(option.field)) then
                 (d.shareResultFrom, d.shareResultField)
               else if !Heard(option.source) then (Trim(option.field.value), d.shareResultField)
               else if !Heard(option.field) then (Trim(option.source.value), d.shareResultField)
               else (Trim(option.source.value), Trim(option.field.value))
  {
  }

  lemma {:induction false} EntriesRun(options: seq<DependencyOption>)
    ensures RunAll(options).readEntries == Flat(ReadPieces(options, false))
    ensures RunAll(options).writeEntries == Flat(WritePieces(options, false))
    decreases |options|
  {
    if options != [] {
      EntriesRun(Init(options));
      OptionAdds(Last(options), RunAll(Init(options)));
      PiecesLast(options, false);
    }
  }

  lemma {:induction false} EntriesRead(options: seq<DependencyOption>)
    ensures ParsedAll(OptionExprs(options)).readEntries == Flat(ReadPieces(options, true))
    ensures ParsedAll(OptionExprs(options)).writeEntries == Flat(WritePieces(options, true))
    decreases |options|
  {
    if options != [] {
      EntriesRead(Init(options));
      PiecesLast(options, true);
      LastParsed(options);
      OptionAdds(Last(options), ParsedAll(OptionExprs(Init(options))));
    }
  }

  lemma {:induction false} ResolverRun(options: seq<DependencyOption>)
    ensures RunAll(options).shareByVisibility == LastName(Resolvers(options))
    decreases |options|
  {
    if options != [] {
      ResolverRun(Init(options));
      OptionResolves(Last(options), RunAll(Init(options)));
      ResolversLast(options);
      if Last(options).ShareByVisibility? { NamesAppend(Resolvers(Init(options)), Last(options).resolver); }
    }
  }

  lemma {:induction false} ResolverRead(options: seq<DependencyOption>)
    ensures ParsedAll(OptionExprs(options)).shareByVisibility == LastHeard(Resolvers(options))
    decreases |options|
  {
    if options != [] {
      ResolverRead(Init(options));
      LastParsed(options);
      OptionResolves(Last(options), ParsedAll(OptionExprs(Init(options))));
      ResolversLast(options);
      if Last(options).ShareByVisibility? { NamesAppend(Resolvers(Init(options)), Last(options).resolver); }
    }
  }

  lemma {:induction false} ResultRun(options: seq<DependencyOption>)
    ensures (RunAll(options).shareResultFrom, RunAll(options).shareResultField) == RunPair(ResultPairs(options))
    decreases |options|
  {
    if options != [] {
      ResultRun(Init(options));
      OptionResults(Last(options), RunAll(Init(options)));
      ResultPairsLast(options);
      if Last(options).ShareResultFrom? {
        PairsAppend(ResultPairs(Init(options)), Last(options).source, Last(options).field);
      }
    }
  }

  lemma {:induction false} ResultRead(options: seq<DependencyOption>)
    ensures var d := ParsedAll(OptionExprs(options));
            (d.shareResultFrom, d.shareResultField) == ReadPair(ResultPairs(options))
    decreases |options|
  {
    if options != [] {
      ResultRead(Init(options));
      LastParsed(options);
      OptionReadsResult(Last(options), ParsedAll(OptionExprs(Init(options))));
      ResultPairsLast(options);
      if Last(options).ShareResultFrom? {
        PairsAppend(ResultPairs(Init(options)), Last(options).source, Last(options).field);
      }
    }
  }

  /** The flags alone. */
  function Flags(d: Deps): (bool, bool, bool) {
    (d.readsEphemeral, d.writesEphemeral, d.shareByPermissions)
  }

  lemma FlagsParsed(option: DependencyOption, d: Deps, e: Deps)
    requires Flags(d) == Flags(e)
    ensures Flags(ParsedOption(option, d)) == Flags(Applied(option, e))
  {
  }

  /** The flags are found as they are declared. */
  lemma {:induction false} FlagsRead(options: seq<DependencyOption>)
    ensures Flags(ParsedAll(OptionExprs(options))) == Flags(RunAll(options))
    decreases |options|
  {
    if options != [] {
      FlagsRead(Init(options));
      LastParsed(options);
      FlagsParsed(Last(options), ParsedAll(OptionExprs(Init(options))), RunAll(Init(options)));
    }
  }

  /** For every list of options, however its literals are spelled: the reader finds what running them declares exactly
      when no table is lost, nothing that decides about a table is, and the last visibility resolver and shared result
      it hears say what the last ones say. */
  lemma ReadingMeansRunning(options: seq<DependencyOption>)
    ensures ParsedAll(OptionExprs(options)) == RunAll(options) <==>
            && AllEntriesHeard(options)
            && EndsWell(Resolvers(options))
            && PairsEndWell(ResultPairs(options))
  {
    EntriesRun(options);
    ResolverRun(options);
    ResultRun(options);
    EntriesRead(options);
    ResolverRead(options);
    ResultRead(options);
    FlagsRead(options);
    AllPiecesAgree(options);
    LastNamesAgree(Resolvers(options));
    PairsAgree(ResultPairs(options));
  }

  // ---------------------------------------------------------------- options whose literals can all be read

  /** Every literal of the option is readable. */
  predicate Readable(option: DependencyOption) {
    match option
    case Reads(tables, calls) =>
      AllReadable(tables) && forall i :: 0 <= i < |calls| ==> AllReadable(CallArgs(calls[i]))
    case Writes(tables, columns) => AllReadable(tables) && forall i :: 0 <= i < |columns| ==> AllReadable(columns[i])
    case ShareByVisibility(resolver) => resolver.readable
    case ShareResultFrom(source, field) => source.readable && field.readable
    case _ => true
  }

  predicate AllReadable(args: seq<Arg>) {
    forall i :: 0 <= i < |args| ==> args[i].readable
  }

  /** The last name is not blank, or all are. */
  predicate EndsNamed(names: seq<Arg>) {
    names == [] || !Blank(Last(names).value) || forall i :: 0 <= i < |names| ==> Blank(names[i].value)
  }

  lemma ReadableEndsWell(names: seq<Arg>)
    requires AllReadable(names)
    ensures EndsWell(names) <==> EndsNamed(names)
  {
    if names != [] {
      if Heard(Last(names)) {
        assert HeardLastAt(names, |names| - 1);
      } else if EndsWell(names) {
        assert forall i :: 0 <= i < |names| ==> (Blank(names[i].value) <==> !Heard(names[i]));
        forall i: nat | HeardLastAt(names, i) ensures Trim(names[i].value) != [] {
        }
      }
    }
  }

  lemma {:induction false} ReadablePredicates(calls: seq<ReadCall>)
    requires forall i :: 0 <= i < |calls| ==> AllReadable(CallArgs(calls[i]))
    ensures AllReadable(PredicateNames(calls))
    decreases |calls|
  {
    if calls != [] {
      assert forall i :: 0 <= i < |calls| - 1 ==> Init(calls)[i] == calls[i];
      ReadablePredicates(Init(calls));
      assert AllReadable(CallArgs(Last(calls)));
      if Last(calls).Predicate? {
        assert CallArgs(Last(calls))[0].readable;
      }
    }
  }

  lemma {:induction false} ReadableLastArgs(calls: seq<ReadCall>, setting: Setting)
    requires forall i :: 0 <= i < |calls| ==> AllReadable(CallArgs(calls[i]))
    ensures AllReadable(LastArgs(calls, setting))
    decreases |calls|
  {
    if calls != [] {
      assert forall i :: 0 <= i < |calls| - 1 ==> Init(calls)[i] == calls[i];
      ReadableLastArgs(Init(calls), setting);
      assert AllReadable(CallArgs(Last(calls)));
    }
  }

  /** The predicate of a Reads option ends named, unless it names no table. */
  predicate PredicateEndsNamed(option: DependencyOption) {
    option.Reads? ==> Clean(Values(option.tables)) == [] || EndsNamed(PredicateNames(option.calls))
  }

  lemma ReadableChain(calls: seq<ReadCall>)
    requires forall i :: 0 <= i < |calls| ==> AllReadable(CallArgs(calls[i]))
    ensures ChainHeard(calls) <==> EndsNamed(PredicateNames(calls))
  {
    ReadablePredicates(calls);
    ReadableEndsWell(PredicateNames(calls));
    ReadableLastArgs(calls, ColumnList);
    ReadableLastArgs(calls, FilterList);
    ReadableLastArgs(calls, OrderList);
  }

  lemma ReadableEntries(option: DependencyOption)
    requires Readable(option)
    ensures EntriesHeard(option) <==> PredicateEndsNamed(option)
  {
    if option.Reads? {
      ReadableChain(option.calls);
    }
  }

  predicate FullPair(p: (Arg, Arg)) {
    !Blank(p.0.value) && !Blank(p.1.value)
  }

  predicate BlankPair(p: (Arg, Arg)) {
    Blank(p.0.value) && Blank(p.1.value)
  }

  /** The last pair is full, or only its field is blank and no pair before it was full, or all are blank. */
  predicate PairsEndNamed(pairs: seq<(Arg, Arg)>) {
    || pairs == []
    || FullPair(Last(pairs))
    || (!Blank(Last(pairs).0.value) && forall i :: 0 <= i < |pairs| ==> !FullPair(pairs[i]))
    || (forall i :: 0 <= i < |pairs| ==> BlankPair(pairs[i]))
  }

  predicate ReadablePairs(pairs: seq<(Arg, Arg)>) {
    forall i :: 0 <= i < |pairs| ==> pairs[i].0.readable && pairs[i].1.readable
  }

  lemma {:induction false} ReadPairEmpty(pairs: seq<(Arg, Arg)>)
    requires ReadablePairs(pairs)
    ensures ReadPair(pairs).1 == [] <==> forall i :: 0 <= i < |pairs| ==> !FullPair(pairs[i])
    ensures ReadPair(pairs).0 == [] <==> forall i :: 0 <= i < |pairs| ==> BlankPair(pairs[i])
    decreases |pairs|
  {
    if pairs != [] {
      assert forall i :: 0 <= i < |pairs| - 1 ==> Init(pairs)[i] == pairs[i];
      ReadPairEmpty(Init(pairs));
      assert forall i :: 0 <= i < |pairs| ==> i == |pairs| - 1 || pairs[i] == Init(pairs)[i];
    }
  }

  lemma ReadablePairsEndWell(pairs: seq<(Arg, Arg)>)
    requires ReadablePairs(pairs)
    ensures PairsEndWell(pairs) <==> PairsEndNamed(pairs)
  {
    PairsAgree(pairs);
    if pairs != [] {
      ReadPairEmpty(pairs);
      ReadPairEmpty(Init(pairs));
    }
  }

  lemma {:induction false} ReadableLists(options: seq<DependencyOption>)
    requires forall i :: 0 <= i < |options| ==> Readable(options[i])
    ensures AllReadable(Resolvers(options)) && ReadablePairs(ResultPairs(options))
    decreases |options|
  {
    if options != [] {
      assert forall i :: 0 <= i < |options| - 1 ==> Init(options)[i] == options[i];
      ReadableLists(Init(options));
      ResolversLast(options);
      ResultPairsLast(options);
    }
  }

  /** When every literal is readable, only blank names that replace others make a difference. */
  lemma ReadableOptionsAgree(options: seq<DependencyOption>)
    requires forall i :: 0 <= i < |options| ==> Readable(options[i])
    ensures ParsedAll(OptionExprs(options)) == RunAll(options) <==>
            && (forall i :: 0 <= i < |options| ==> PredicateEndsNamed(options[i]))
            && EndsNamed(Resolvers(options))
            && PairsEndNamed(ResultPairs(options))
  {
    ReadingMeansRunning(options);
    ReadableLists(options);
    ReadableEndsWell(Resolvers(options));
    ReadablePairsEndWell(ResultPairs(options));
    forall i | 0 <= i < |options| ensures EntriesHeard(options[i]) <==> PredicateEndsNamed(options[i]) {
      ReadableEntries(options[i]);
    }
  }

  /** An option none of whose single names is blank. Table and column names may be. */
  predicate Named(option: DependencyOption) {
    match option
    case Reads(_, calls) => forall i :: 0 <= i < |calls| && calls[i].Predicate? ==> !Blank(calls[i].name.value)
    case ShareByVisibility(resolver) => !Blank(resolver.value)
    case ShareResultFrom(source, field) => !Blank(source.value) && !Blank(field.value)
    case _ => true
  }

  lemma {:induction false} NamedPredicates(calls: seq<ReadCall>)
    requires forall i :: 0 <= i < |calls| && calls[i].Predicate? ==> !Blank(calls[i].name.value)
    ensures EndsNamed(PredicateNames(calls))
    decreases |calls|
  {
    if calls != [] {
      if Last(calls).Predicate? {
        InitOfAppend(PredicateNames(Init(calls)), Last(calls).name);
      } else {
        NamedPredicates(Init(calls));
      }
    }
  }

  lemma {:induction false} NamedLists(options: seq<DependencyOption>)
    requires forall i :: 0 <= i < |options| ==> Named(options[i])
    ensures EndsNamed(Resolvers(options)) && PairsEndNamed(ResultPairs(options))
    decreases |options|
  {
    if options != [] {
      assert forall i :: 0 <= i < |options| - 1 ==> Init(options)[i] == options[i];
      NamedLists(Init(options));
      ResolversLast(options);
      ResultPairsLast(options);
      var option := Last(options);
      if option.ShareByVisibility? { InitOfAppend(Resolvers(Init(options)), option.resolver); }
      if option.ShareResultFrom? { InitOfAppend(ResultPairs(Init(options)), (option.source, option.field)); }
    }
  }

  /** For readable literals without blank names the reader always finds what running the options declares. */
  lemma NamedOptionsAgree(options: seq<DependencyOption>)
    requires forall i :: 0 <= i < |options| ==> Readable(options[i]) && Named(options[i])
    ensures ParsedAll(OptionExprs(options)) == RunAll(options)
  {
    ReadableOptionsAgree(options);
    NamedLists(options);
    forall i | 0 <= i < |options| ensures PredicateEndsNamed(options[i]) {
      if options[i].Reads? { NamedPredicates(options[i].calls); }
    }
  }

  // ---------------------------------------------------------------- options the two disagree on

  lemma OneOption(option: DependencyOption)
    ensures ParsedAll(OptionExprs([option])) == ParsedOption(option, NO_DEPS) && RunAll([option]) == Applied(option, NO_DEPS)
  {
    assert Init([option]) == [];
    LastParsed([option]);
  }

  /** A table written as a raw string is lost to the reader. */
  lemma RawTableIsLost(table: Text)
    requires !Blank(table)
    ensures var options := [Reads([Arg(table, false)], [])];
            ParsedAll(OptionExprs(options)).readEntries == [] && RunAll(options).readEntries == [NewRead(Trim(table))]
  {
    var args := [Arg(table, false)];
    OneOption(Reads(args, []));
    HeardOne(args[0]);
    assert Values(args) == [table] && Init([table]) == [] && Clean([]) == [];
  }

  /** A blank resolver takes back an earlier one when it is run, but not when it is read. */
  lemma BlankResolverIsPassedOver(resolver: Text)
    requires !Blank(resolver)
    ensures var options := [ShareByVisibility(Arg(resolver, true)), ShareByVisibility(Arg([], true))];
            && ParsedAll(OptionExprs(options)).shareByVisibility == Trim(resolver)
            && RunAll(options).shareByVisibility == []
  {
    var first, second := Arg(resolver, true), Arg([], true);
    var options := [ShareByVisibility(first), ShareByVisibility(second)];
    assert Init(options) == [ShareByVisibility(first)] && Init(Init(options)) == [];
    assert Resolvers([]) == [] && Resolvers(Init(options)) == [first] && Resolvers(options) == [first] + [second];
    ResolverRun(options);
    ResolverRead(options);
    NamesAppend([first], second);
    NamesAppend([], first);
    assert [] + [first] == [first];
  }
}
