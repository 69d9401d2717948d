/** Dependency options: the builders an application runs (pkg/gonvex/gonvex.go) against the static reader
    of their expressions (`parseDependencyOption` in cmd/gonvex/main.go). */
module DependencyOptions {
  import opened Texts

  datatype Read = Read(
    table: Text, columns: seq<Text>, filters: seq<Text>, ordersBy: seq<Text>, windowed: bool, predicateName: Text)

  datatype Write = Write(table: Text, columns: seq<Text>)

  datatype Deps = Deps(
    readEntries: seq<Read>,
    writeEntries: seq<Write>,
    readsEphemeral: bool,
    writesEphemeral: bool,
    shareByPermissions: bool,
    shareByVisibility: Text,
    shareResultFrom: Text,
    shareResultField: Text)

  const NO_DEPS := Deps([], [], false, false, false, [], [], [])

  /** Expressions as the reader tells them apart. A string literal is `readable` when its source text is also
      a JSON string: then both languages give it the same value. */
  datatype Expr =
    | Call(fun: Expr, args: seq<Expr>)
    | Selector(x: Expr, sel: string)
    | Ident(name: string)
    | Literal(value: Text, readable: bool)
    | Other

  /** A literal argument: what it says, and whether its spelling is readable. Raw strings and escapes that only Go
      knows are not. */
  datatype Arg = Arg(value: Text, readable: bool)

  datatype ReadCall =
    | Columns(names: seq<Arg>)
    | Filters(names: seq<Arg>)
    | OrdersBy(names: seq<Arg>)
    | Windowed
    | Predicate(name: Arg)

  /** What an application writes: constructors with the calls chained to them. */
  datatype DependencyOption =
    | Reads(tables: seq<Arg>, calls: seq<ReadCall>)
    | Writes(tables: seq<Arg>, columns: seq<seq<Arg>>)
    | ReadsEphemeral
    | WritesEphemeral
    | ShareByPermissions
    | ShareByVisibility(resolver: Arg)
    | ShareResultFrom(source: Arg, field: Arg)

  /** Which entries a chained call still speaks about. */
  datatype Target = NoTarget | ReadTarget(start: nat) | WriteTarget(start: nat)

  predicate Blank(s: Text) {
    Trim(s) == []
  }

  function Init<T>(s: seq<T>): seq<T>
    requires s != []
  {
    s[..|s| - 1]
  }

  function Last<T>(s: seq<T>): T
    requires s != []
  {
    s[|s| - 1]
  }

  lemma InitOfPrefix<T>(s: seq<T>, i: nat)
    requires i < |s|
    ensures s[..i + 1] != [] && Init(s[..i + 1]) == s[..i] && Last(s[..i + 1]) == s[i]
  {
  }

  lemma InitOfAppend<T>(s: seq<T>, x: T)
    ensures s + [x] != [] && Init(s + [x]) == s && Last(s + [x]) == x
  {
  }

  // ---------------------------------------------------------------- running the builders

  /** The values, trimmed, without the blank ones. */
  function Clean(values: seq<Text>): seq<Text> {
    if values == [] then []
    else Clean(Init(values)) + (if Blank(Last(values)) then [] else [Trim(Last(values))])
  }

  function Values(args: seq<Arg>): seq<Text> {
    seq(|args|, i requires 0 <= i < |args| => args[i].value)
  }

  function NewRead(table: Text): Read {
    Read(table, [], [], [], false, [])
  }

  function NewReads(tables: seq<Text>): seq<Read> {
    seq(|tables|, i requires 0 <= i < |tables| => NewRead(tables[i]))
  }

  function NewWrites(tables: seq<Text>): seq<Write> {
    seq(|tables|, i requires 0 <= i < |tables| => Write(tables[i], []))
  }

  function Built(r: Read, call: ReadCall): Read {
    match call
    case Columns(names) => r.(columns := Clean(Values(names)))
    case Filters(names) => r.(filters := Clean(Values(names)))
    case OrdersBy(names) => r.(ordersBy := Clean(Values(names)))
    case Windowed => r.(windowed := true)
    case Predicate(name) => r.(predicateName := Trim(name.value))
  }

  function BuiltEach(rs: seq<Read>, call: ReadCall): seq<Read> {
    seq(|rs|, i requires 0 <= i < |rs| => Built(rs[i], call))
  }

  function ColumnsEach(ws: seq<Write>, columns: seq<Text>): seq<Write> {
    seq(|ws|, i requires 0 <= i < |ws| => ws[i].(columns := columns))
  }

  /** What a chain of builder calls holds. */
  function BuiltReads(tables: seq<Arg>, calls: seq<ReadCall>): seq<Read> {
    if calls == [] then NewReads(Clean(Values(tables))) else BuiltEach(BuiltReads(tables, Init(calls)), Last(calls))
  }

  function BuiltWrites(tables: seq<Arg>, columns: seq<seq<Arg>>): seq<Write> {
    if columns == [] then NewWrites(Clean(Values(tables)))
    else ColumnsEach(BuiltWrites(tables, Init(columns)), Clean(Values(Last(columns))))
  }

  /** `applyFunctionOption` */
  function Applied(option: DependencyOption, d: Deps): Deps {
    match option
    case Reads(tables, calls) => d.(readEntries := d.readEntries + BuiltReads(tables, calls))
    case Writes(tables, columns) => d.(writeEntries := d.writeEntries + BuiltWrites(tables, columns))
    case ReadsEphemeral => d.(readsEphemeral := true)
    case WritesEphemeral => d.(writesEphemeral := true)
    case ShareByPermissions => d.(shareByPermissions := true)
    case ShareByVisibility(resolver) => d.(shareByVisibility := Trim(resolver.value))
    case ShareResultFrom(source, field) =>
      d.(shareResultFrom := Trim(source.value), shareResultField := Trim(field.value))
  }

  /** What registering a function with these options declares. */
  function RunAll(options: seq<DependencyOption>): Deps {
    if options == [] then NO_DEPS else Applied(Last(options), RunAll(Init(options)))
  }

  /** `clean` holds, in their order, exactly the values that are not blank, each trimmed (`Texts.TrimMeaning`). */
  ghost predicate KeepsNamed(values: seq<Text>, at: seq<nat>, clean: seq<Text>) {
    && |at| == |clean| && (forall i, j :: 0 <= i < j < |at| ==> at[i] < at[j])
    && (forall k :: 0 <= k < |at| ==> at[k] < |values| && clean[k] == Trim(values[at[k]]) && clean[k] != [])
    && (forall i :: 0 <= i < |values| ==> (i in at <==> Trim(values[i]) != []))
  }

  lemma KeepsOneMore(values: seq<Text>, last: Text, at: seq<nat>, clean: seq<Text>)
    requires KeepsNamed(values, at, clean)
    ensures Trim(last) == [] ==> KeepsNamed(values + [last], at, clean)
    ensures Trim(last) != [] ==> KeepsNamed(values + [last], at + [|values|], clean + [Trim(last)])
  {
    var more := values + [last];
    assert forall i :: 0 <= i < |values| ==> more[i] == values[i];
  }

  lemma {:induction false} CleanMeaning(values: seq<Text>) returns (at: seq<nat>)
    ensures KeepsNamed(values, at, Clean(values))
  {
    if values == [] {
      at := [];
    } else {
      var before := CleanMeaning(Init(values));
      KeepsOneMore(Init(values), Last(values), before, Clean(Init(values)));
      assert Init(values) + [Last(values)] == values;
      at := if Blank(Last(values)) then before else before + [|values| - 1];
      assert Blank(Last(values)) ==> Clean(values) == Clean(Init(values)) + [] == Clean(Init(values));
    }
  }

  // ---------------------------------------------------------------- reading the expressions

  /** `stringArguments` */
  function Strings(args: seq<Expr>): seq<Text> {
    if args == [] then []
    else
      Strings(Init(args))
      + (match Last(args)
         case Literal(value, readable) => if readable && !Blank(value) then [Trim(value)] else []
         case _ => [])
  }

  function Noted(r: Read, name: string, values: seq<Text>): Read {
    if name == "Columns" then r.(columns := values)
    else if name == "Filters" then r.(filters := values)
    else if name == "OrdersBy" then r.(ordersBy := values)
    else if name == "Windowed" then r.(windowed := true)
    else if name == "Predicate" && values != [] then r.(predicateName := values[0])
    else r
  }

  function NotedFrom(rs: seq<Read>, start: nat, name: string, values: seq<Text>): seq<Read> {
    seq(|rs|, i requires 0 <= i < |rs| => if i < start then rs[i] else Noted(rs[i], name, values))
  }

  function ColumnsFrom(ws: seq<Write>, start: nat, values: seq<Text>): seq<Write> {
    seq(|ws|, i requires 0 <= i < |ws| => if i < start then ws[i] else ws[i].(columns := values))
  }

  /** A call of one of the package's own functions. */
  function Root(name: string, values: seq<Text>, d: Deps): (Deps, Target) {
    if name == "Reads" then (d.(readEntries := d.readEntries + NewReads(values)), ReadTarget(|d.readEntries|))
    else if name == "Writes" then (d.(writeEntries := d.writeEntries + NewWrites(values)), WriteTarget(|d.writeEntries|))
    else if name == "ReadsEphemeral" then (d.(readsEphemeral := true), NoTarget)
    else if name == "WritesEphemeral" then (d.(writesEphemeral := true), NoTarget)
    else if name == "ShareByPermissions" then (d.(shareByPermissions := true), NoTarget)
    else if name == "ShareByVisibility" && values != [] then (d.(shareByVisibility := values[0]), NoTarget)
    else if name == "ShareResultFrom" && |values| > 1 then
      (d.(shareResultFrom := values[0], shareResultField := values[1]), NoTarget)
    else if name == "ShareResultFrom" && values != [] then (d.(shareResultFrom := values[0]), NoTarget)
    else (d, NoTarget)
  }

  /** A call chained to something read before. */
  function Chained(d: Deps, target: Target, name: string, values: seq<Text>): Deps {
    match target
    case ReadTarget(start) => d.(readEntries := NotedFrom(d.readEntries, start, name, values))
    case WriteTarget(start) => if name == "Columns" then d.(writeEntries := ColumnsFrom(d.writeEntries, start, values)) else d
    case NoTarget => d
  }

  /** `parseDependencyOption` */
  function Parsed(e: Expr, d: Deps): (Deps, Target) {
    match e
    case Call(Selector(x, name), args) =>
      if x == Ident("gonvex") then Root(name, Strings(args), d)
      else
        var inner := Parsed(x, d);
        (Chained(inner.0, inner.1, name, Strings(args)), inner.1)
    case _ => (d, NoTarget)
  }

  function ParsedAll(exprs: seq<Expr>): Deps {
    if exprs == [] then NO_DEPS else Parsed(Last(exprs), ParsedAll(Init(exprs))).0
  }

  // ---------------------------------------------------------------- what is written for an option

  function Literals(args: seq<Arg>): seq<Expr> {
    seq(|args|, i requires 0 <= i < |args| => Literal(args[i].value, args[i].readable))
  }

  function PackageCall(name: string, args: seq<Arg>): Expr {
    Call(Selector(Ident("gonvex"), name), Literals(args))
  }

  function CallName(call: ReadCall): string {
    match call
    case Columns(_) => "Columns"
    case Filters(_) => "Filters"
    case OrdersBy(_) => "OrdersBy"
    case Windowed => "Windowed"
    case Predicate(_) => "Predicate"
  }

  function CallArgs(call: ReadCall): seq<Arg> {
    match call
    case Columns(names) => names
    case Filters(names) => names
    case OrdersBy(names) => names
    case Windowed => []
    case Predicate(name) => [name]
  }

  function ReadsExpr(tables: seq<Arg>, calls: seq<ReadCall>): Expr {
    if calls == [] then PackageCall("Reads", tables)
    else Call(Selector(ReadsExpr(tables, Init(calls)), CallName(Last(calls))), Literals(CallArgs(Last(calls))))
  }

  function WritesExpr(tables: seq<Arg>, columns: seq<seq<Arg>>): Expr {
    if columns == [] then PackageCall("Writes", tables)
    else Call(Selector(WritesExpr(tables, Init(columns)), "Columns"), Literals(Last(columns)))
  }

  function OptionExpr(option: DependencyOption): Expr {
    match option
    case Reads(tables, calls) => ReadsExpr(tables, calls)
    case Writes(tables, columns) => WritesExpr(tables, columns)
    case ReadsEphemeral => PackageCall("ReadsEphemeral", [])
    case WritesEphemeral => PackageCall("WritesEphemeral", [])
    case ShareByPermissions => PackageCall("ShareByPermissions", [])
    case ShareByVisibility(resolver) => PackageCall("ShareByVisibility", [resolver])
    case ShareResultFrom(source, field) => PackageCall("ShareResultFrom", [source, field])
  }

  function OptionExprs(options: seq<DependencyOption>): seq<Expr> {
    seq(|options|, i requires 0 <= i < |options| => OptionExpr(options[i]))
  }

  // ---------------------------------------------------------------- the frame of the reader

  /** `all`, read into `d`, is `own`, read into nothing, put behind what `d` held. */
  predicate Framed(d: Deps, own: (Deps, Target), all: (Deps, Target)) {
    && all.0.readEntries == d.readEntries + own.0.readEntries
    && all.0.writeEntries == d.writeEntries + own.0.writeEntries
    && (match own.1
        case NoTarget => all.1.NoTarget? && own.0.readEntries == [] && own.0.writeEntries == []
        case ReadTarget(start) =>
          && start == 0 && all.1 == ReadTarget(|d.readEntries|) && own.0.writeEntries == []
          && all.0 == d.(readEntries := all.0.readEntries)
        case WriteTarget(start) =>
          && start == 0 && all.1 == WriteTarget(|d.writeEntries|) && own.0.readEntries == []
          && all.0 == d.(writeEntries := all.0.writeEntries))
  }

  lemma RootFrame(name: string, values: seq<Text>, d: Deps)
    ensures Framed(d, Root(name, values, NO_DEPS), Root(name, values, d))
  {
  }

  lemma ChainedFrame(d: Deps, own: (Deps, Target), all: (Deps, Target), name: string, values: seq<Text>)
    requires Framed(d, own, all)
    ensures Framed(d, (Chained(own.0, own.1, name, values), own.1), (Chained(all.0, all.1, name, values), all.1))
  {
    match own.1 {
      case ReadTarget(_) =>
        assert NotedFrom(d.readEntries + own.0.readEntries, |d.readEntries|, name, values)
            == d.readEntries + NotedFrom(own.0.readEntries, 0, name, values);
      case WriteTarget(_) =>
        assert ColumnsFrom(d.writeEntries + own.0.writeEntries, |d.writeEntries|, values)
            == d.writeEntries + ColumnsFrom(own.0.writeEntries, 0, values);
      case NoTarget =>
    }
  }

  /** Reading any expression leaves every entry that was there; what it adds does not depend on what was
      there, the target it hands on covers exactly the added entries, and an expression with a target changes
      nothing else. */
  lemma {:induction false} ParsedFrame(e: Expr, d: Deps)
    ensures Framed(d, Parsed(e, NO_DEPS), Parsed(e, d))
    decreases e
  {
    match e
    case Call(Selector(x, name), args) =>
      if x == Ident("gonvex") {
        RootFrame(name, Strings(args), d);
      } else {
        ParsedFrame(x, d);
        ChainedFrame(d, Parsed(x, NO_DEPS), Parsed(x, d), name, Strings(args));
      }
    case _ =>
  }

  // ---------------------------------------------------------------- as the source does it

  method CleanDependencyNames(values: seq<Text>) returns (clean: seq<Text>)
    ensures clean == Clean(values)
  {
    clean := [];
    for i := 0 to |values|
      invariant clean == Clean(values[..i])
    {
      InitOfPrefix(values, i);
      var value := Trim(values[i]);
      if value != [] {
        clean := clean + [value];
      }
    }
    assert values[..|values|] == values;
  }

  method StringArguments(args: seq<Expr>) returns (values: seq<Text>)
    ensures values == Strings(args)
  {
    values := [];
    for i := 0 to |args|
      invariant values == Strings(args[..i])
    {
      InitOfPrefix(args, i);
      if args[i].Literal? && args[i].readable && Trim(args[i].value) != [] {
        values := values + [Trim(args[i].value)];
      }
    }
    assert args[..|args|] == args;
  }

  class ReadOption {
    var dependencies: seq<Read>

    constructor (tables: seq<Text>)
      ensures dependencies == NewReads(Clean(tables))
    {
      dependencies := [];
      new;
      for i := 0 to |tables|
        invariant dependencies == NewReads(Clean(tables[..i]))
      {
        InitOfPrefix(tables, i);
        var table := Trim(tables[i]);
        if table != [] {
          dependencies := dependencies + [NewRead(table)];
        }
      }
      assert tables[..|tables|] == tables;
    }

    /** `Columns`, `Filters`, `OrdersBy`, `Windowed` and `Predicate`: each overwrites its field in every entry. */
    method Apply(call: ReadCall)
      modifies this
      ensures dependencies == BuiltEach(old(dependencies), call)
    {
      for i := 0 to |dependencies|
        invariant |dependencies| == |old(dependencies)|
        invariant forall k :: 0 <= k < i ==> dependencies[k] == Built(old(dependencies)[k], call)
        invariant forall k :: i <= k < |dependencies| ==> dependencies[k] == old(dependencies)[k]
      {
        var entry := dependencies[i];
        match call {
          case Columns(names) =>
            var clean := CleanDependencyNames(Values(names));
            entry := entry.(columns := clean);
          case Filters(names) =>
            var clean := CleanDependencyNames(Values(names));
            entry := entry.(filters := clean);
          case OrdersBy(names) =>
            var clean := CleanDependencyNames(Values(names));
            entry := entry.(ordersBy := clean);
          case Windowed =>
            entry := entry.(windowed := true);
          case Predicate(name) =>
            entry := entry.(predicateName := Trim(name.value));
        }
        dependencies := dependencies[i := entry];
      }
    }

    method ApplyTo(target: FunctionDependencies)
      modifies target
      ensures target.View() == old(target.View()).(readEntries := old(target.readEntries) + dependencies)
    {
      target.readEntries := target.readEntries + dependencies;
    }
  }

  class WriteOption {
    var dependencies: seq<Write>

    constructor (tables: seq<Text>)
      ensures dependencies == NewWrites(Clean(tables))
    {
      dependencies := [];
      new;
      for i := 0 to |tables|
        invariant dependencies == NewWrites(Clean(tables[..i]))
      {
        InitOfPrefix(tables, i);
        var table := Trim(tables[i]);
        if table != [] {
          dependencies := dependencies + [Write(table, [])];
        }
      }
      assert tables[..|tables|] == tables;
    }

    method SetColumns(names: seq<Text>)
      modifies this
      ensures dependencies == ColumnsEach(old(dependencies), Clean(names))
    {
      for i := 0 to |dependencies|
        invariant |dependencies| == |old(dependencies)|
        invariant forall k :: 0 <= k < i ==> dependencies[k] == old(dependencies)[k].(columns := Clean(names))
        invariant forall k :: i <= k < |dependencies| ==> dependencies[k] == old(dependencies)[k]
      {
        var clean := CleanDependencyNames(names);
        dependencies := dependencies[i := dependencies[i].(columns := clean)];
      }
    }

    method ApplyTo(target: FunctionDependencies)
      modifies target
      ensures target.View() == old(target.View()).(writeEntries := old(target.writeEntries) + dependencies)
    {
      target.writeEntries := target.writeEntries + dependencies;
    }
  }

  class FunctionDependencies {
    var readEntries: seq<Read>
    var writeEntries: seq<Write>
    var readsEphemeral: bool
    var writesEphemeral: bool
    var shareByPermissions: bool
    var shareByVisibility: Text
    var shareResultFrom: Text
    var shareResultField: Text

    function View(): Deps
      reads this
    {
      Deps(readEntries, writeEntries, readsEphemeral, writesEphemeral, shareByPermissions, shareByVisibility,
           shareResultFrom, shareResultField)
    }

    constructor ()
      ensures View() == NO_DEPS
    {
      readEntries, writeEntries := [], [];
      readsEphemeral, writesEphemeral, shareByPermissions := false, false, false;
      shareByVisibility, shareResultFrom, shareResultField := [], [], [];
    }

    /** `parseDependencyOption` */
    method ParseDependencyOption(expression: Expr) returns (target: Target)
      modifies this
      ensures (View(), target) == Parsed(expression, old(View()))
      decreases expression
    {
      target := NoTarget;
      if !expression.Call? || !expression.fun.Selector? {
        return;
      }
      var selector := expression.fun;
      var values := StringArguments(expression.args);
      if selector.x == Ident("gonvex") {
        target := ParseRoot(selector.sel, values);
        return;
      }
      target := ParseDependencyOption(selector.x);
      match target {
        case ReadTarget(start) => NoteReads(start, selector.sel, values);
        case WriteTarget(start) =>
          if selector.sel == "Columns" { NoteColumns(start, values); }
        case NoTarget =>
      }
    }

    method ParseRoot(name: string, values: seq<Text>) returns (target: Target)
      modifies this
      ensures (View(), target) == Root(name, values, old(View()))
    {
      target := NoTarget;
      if name == "Reads" {
        target := ReadTarget(|readEntries|);
        AddReads(values);
      } else if name == "Writes" {
        target := WriteTarget(|writeEntries|);
        AddWrites(values);
      } else if name == "ReadsEphemeral" {
        readsEphemeral := true;
      } else if name == "WritesEphemeral" {
        writesEphemeral := true;
      } else if name == "ShareByPermissions" {
        shareByPermissions := true;
      } else if name == "ShareByVisibility" {
        if |values| > 0 { shareByVisibility := values[0]; }
      } else if name == "ShareResultFrom" {
        if |values| > 0 { shareResultFrom := values[0]; }
        if |values| > 1 { shareResultField := values[1]; }
      }
    }

    method AddReads(values: seq<Text>)
      modifies this`readEntries
      ensures readEntries == old(readEntries) + NewReads(values)
    {
      ghost var before := readEntries;
      for i := 0 to |values|
        invariant readEntries == before + NewReads(values[..i])
      {
        readEntries := readEntries + [NewRead(values[i])];
      }
      assert values[..|values|] == values;
    }

    method AddWrites(values: seq<Text>)
      modifies this`writeEntries
      ensures writeEntries == old(writeEntries) + NewWrites(values)
    {
      ghost var before := writeEntries;
      for i := 0 to |values|
        invariant writeEntries == before + NewWrites(values[..i])
      {
        writeEntries := writeEntries + [Write(values[i], [])];
      }
      assert values[..|values|] == values;
    }

    /** The loop over the entries a chain of reads has added. */
    method NoteReads(start: nat, name: string, values: seq<Text>)
      modifies this`readEntries
      ensures readEntries == NotedFrom(old(readEntries), start, name, values)
    {
      var index := start;
      while index < |readEntries|
        invariant |readEntries| == |old(readEntries)|
        invariant start <= index
        invariant forall k :: 0 <= k < |readEntries| && k < start ==> readEntries[k] == old(readEntries)[k]
        invariant forall k :: start <= k < index && k < |readEntries| ==>
                    readEntries[k] == Noted(old(readEntries)[k], name, values)
        invariant forall k :: index <= k < |readEntries| ==> readEntries[k] == old(readEntries)[k]
      {
        var entry := readEntries[index];
        if name == "Columns" {
          entry := entry.(columns := values);
        } else if name == "Filters" {
          entry := entry.(filters := values);
        } else if name == "OrdersBy" {
          entry := entry.(ordersBy := values);
        } else if name == "Windowed" {
          entry := entry.(windowed := true);
        } else if name == "Predicate" && |values| > 0 {
          entry := entry.(predicateName := values[0]);
        }
        readEntries := readEntries[index := entry];
        index := index + 1;
      }
    }

    method NoteColumns(start: nat, values: seq<Text>)
      modifies this`writeEntries
      ensures writeEntries == ColumnsFrom(old(writeEntries), start, values)
    {
      var index := start;
      while index < |writeEntries|
        invariant |writeEntries| == |old(writeEntries)|
        invariant start <= index
        invariant forall k :: 0 <= k < |writeEntries| && k < start ==> writeEntries[k] == old(writeEntries)[k]
        invariant forall k :: start <= k < index && k < |writeEntries| ==>
                    writeEntries[k] == old(writeEntries)[k].(columns := values)
        invariant forall k :: index <= k < |writeEntries| ==> writeEntries[k] == old(writeEntries)[k]
      {
        writeEntries := writeEntries[index := writeEntries[index].(columns := values)];
        index := index + 1;
      }
    }
  }

  /** Reads the option expressions of one registration. */
  method ReadOptions(expressions: seq<Expr>) returns (dependencies: FunctionDependencies)
    ensures fresh(dependencies) && dependencies.View() == ParsedAll(expressions)
  {
    dependencies := new FunctionDependencies();
    for i := 0 to |expressions|
      invariant fresh(dependencies) && dependencies.View() == ParsedAll(expressions[..i])
    {
      InitOfPrefix(expressions, i);
      var _ := dependencies.ParseDependencyOption(expressions[i]);
    }
    assert expressions[..|expressions|] == expressions;
  }

  /** Runs the builders of one option and applies the result. */
  method ApplyOption(option: DependencyOption, target: FunctionDependencies)
    modifies target
    ensures target.View() == Applied(option, old(target.View()))
  {
    match option
    case Reads(tables, calls) =>
      var builder := new ReadOption(Values(tables));
      for i := 0 to |calls|
        invariant fresh(builder) && builder.dependencies == BuiltReads(tables, calls[..i])
        invariant target.View() == old(target.View())
      {
        InitOfPrefix(calls, i);
        builder.Apply(calls[i]);
      }
      assert calls[..|calls|] == calls;
      builder.ApplyTo(target);
    case Writes(tables, columns) =>
      var builder := new WriteOption(Values(tables));
      for i := 0 to |columns|
        invariant fresh(builder) && builder.dependencies == BuiltWrites(tables, columns[..i])
        invariant target.View() == old(target.View())
      {
        InitOfPrefix(columns, i);
        builder.SetColumns(Values(columns[i]));
      }
      assert columns[..|columns|] == columns;
      builder.ApplyTo(target);
    case ReadsEphemeral => target.readsEphemeral := true;
    case WritesEphemeral => target.writesEphemeral := true;
    case ShareByPermissions => target.shareByPermissions := true;
    case ShareByVisibility(resolver) => target.shareByVisibility := Trim(resolver.value);
    case ShareResultFrom(source, field) =>
      target.shareResultFrom, target.shareResultField := Trim(source.value), Trim(field.value);
  }

  /** Applies the options of one registration in order. */
  method RunOptions(options: seq<DependencyOption>) returns (dependencies: FunctionDependencies)
    ensures fresh(dependencies) && dependencies.View() == RunAll(options)
  {
    dependencies := new FunctionDependencies();
    for i := 0 to |options|
      invariant fresh(dependencies) && dependencies.View() == RunAll(options[..i])
    {
      InitOfPrefix(options, i);
      ApplyOption(options[i], dependencies);
    }
    assert options[..|options|] == options;
  }
}
