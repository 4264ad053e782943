/** render_template.py: a line-by-line renderer with a stack, against the meaning of the nested template it reads. */
module Template {
  import opened Options

  // ---- the string operations the script uses ----

  /** What `str.strip` takes off. */
  predicate IsSpace(c: char) {
    || '\U{0009}' <= c <= '\U{000D}' || '\U{001C}' <= c <= '\U{0020}' || c == '\U{0085}' || c == '\U{00A0}'
    || c == '\U{1680}' || '\U{2000}' <= c <= '\U{200A}' || c == '\U{2028}' || c == '\U{2029}'
    || c == '\U{202F}' || c == '\U{205F}' || c == '\U{3000}'
  }

  /** The blanks of ASCII, and nothing that is printed. */
  lemma Blanks(c: char)
    ensures c == ' ' || c == '\t' || c == '\n' || c == '\r' ==> IsSpace(c)
    ensures '!' <= c <= '~' ==> !IsSpace(c)
  {
  }

  function StripLeft(s: string): string {
    if s != "" && IsSpace(s[0]) then StripLeft(s[1..]) else s
  }

  function StripRight(s: string): string {
    if s != "" && IsSpace(s[|s| - 1]) then StripRight(s[..|s| - 1]) else s
  }

  function Strip(s: string): string {
    StripRight(StripLeft(s))
  }

  predicate StartsWith(s: string, p: string) {
    p <= s
  }

  predicate EndsWith(s: string, c: char) {
    s != "" && s[|s| - 1] == c
  }

  /** `str.replace`: all occurrences, leftmost first, without overlap. */
  function Replace(s: string, from: string, to: string): string
    requires from != ""
    decreases |s|
  {
    if s == "" then ""
    else if StartsWith(s, from) then to + Replace(s[|from|..], from, to)
    else [s[0]] + Replace(s[1..], from, to)
  }

  // ---- variables, in the order they were first given ----

  datatype Binding = Binding(key: string, value: string)

  function Lookup(vars: seq<Binding>, key: string): Option<string> {
    if vars == [] then None
    else if vars[0].key == key then Some(vars[0].value)
    else Lookup(vars[1..], key)
  }

  /** Assigning to a dictionary: an old key keeps its place. */
  function Assign(vars: seq<Binding>, b: Binding): seq<Binding> {
    if vars == [] then [b]
    else if vars[0].key == b.key then [b] + vars[1..]
    else [vars[0]] + Assign(vars[1..], b)
  }

  lemma {:induction false} LookupAssign(vars: seq<Binding>, b: Binding, key: string)
    ensures Lookup(Assign(vars, b), key) == if key == b.key then Some(b.value) else Lookup(vars, key)
  {
    if vars != [] {
      var r := Assign(vars, b);
      if vars[0].key == b.key {
        assert r[1..] == vars[1..];
      } else {
        LookupAssign(vars[1..], b, key);
        assert r[1..] == Assign(vars[1..], b);
      }
    }
  }

  /** Where the first `=` of an item is, or its length. */
  function FirstEquals(item: string): (n: nat)
    ensures n <= |item|
  {
    if item == "" || item[0] == '=' then 0 else 1 + FirstEquals(item[1..])
  }

  function KeyOf(item: string): string {
    Strip(item[..FirstEquals(item)])
  }

  predicate GoodItem(item: string) {
    FirstEquals(item) < |item| && KeyOf(item) != ""
  }

  function BindingOf(item: string): Binding
    requires GoodItem(item)
  {
    Binding(KeyOf(item), item[FirstEquals(item) + 1..])
  }

  function Bindings(raw: seq<string>): seq<Binding>
    requires forall i | 0 <= i < |raw| :: GoodItem(raw[i])
  {
    if raw == [] then [] else Assign(Bindings(raw[..|raw| - 1]), BindingOf(raw[|raw| - 1]))
  }

  lemma NothingAssigned(key: string)
    ensures Lookup([], key) == None
  {
  }

  /** A variable has the value of the last item that names it. */
  lemma {:induction false} LastItemWins(raw: seq<string>, key: string, value: string)
    requires forall i | 0 <= i < |raw| :: GoodItem(raw[i])
    ensures Lookup(Bindings(raw), key) == Some(value)
       <==> exists i | 0 <= i < |raw| ::
              && BindingOf(raw[i]) == Binding(key, value)
              && forall j | i < j < |raw| :: BindingOf(raw[j]).key != key
  {
    hide Assign, Lookup, GoodItem, BindingOf;
    if raw == [] {
      NothingAssigned(key);
    } else {
      var n := |raw| - 1;
      var front := raw[..n];
      LookupAssign(Bindings(front), BindingOf(raw[n]), key);
      LastItemWins(front, key, value);
      if BindingOf(raw[n]).key == key {
        if BindingOf(raw[n]).value == value {
          assert BindingOf(raw[n]) == Binding(key, value);
        }
      } else if Lookup(Bindings(front), key) == Some(value) {
        var i :| 0 <= i < n && BindingOf(front[i]) == Binding(key, value)
                 && forall j | i < j < n :: BindingOf(front[j]).key != key;
        assert BindingOf(raw[i]) == Binding(key, value);
        forall j | i < j < |raw| ensures BindingOf(raw[j]).key != key {
          if j < n {
            assert raw[j] == front[j];
          }
        }
      }
    }
  }

  /** `parse_vars`: the first item that cannot be used ends the program. */
  method ParseVars(raw: seq<string>) returns (vars: seq<Binding>, bad: Option<nat>)
    ensures bad == None <==> forall i | 0 <= i < |raw| :: GoodItem(raw[i])
    ensures bad == None ==> vars == Bindings(raw)
    ensures bad.Some? ==>
              bad.value < |raw| && !GoodItem(raw[bad.value]) && forall i | 0 <= i < bad.value :: GoodItem(raw[i])
  {
    vars := [];
    for n := 0 to |raw|
      invariant forall i | 0 <= i < n :: GoodItem(raw[i])
      invariant vars == Bindings(raw[..n])
    {
      if !GoodItem(raw[n]) {
        return vars, Some(n);
      }
      assert raw[..n + 1][..n] == raw[..n];
      vars := Assign(vars, BindingOf(raw[n]));
    }
    assert raw[..|raw|] == raw;
    return vars, None;
  }

  predicate Truthy(value: string) {
    value !in ["", "0", "false", "False", "no", "No"]
  }

  // ---- what a line says ----

  datatype Kind =
    | Opens(name: string, invert: bool)
    | Else
    | Endif
    | Plain

  function DropMark(c: string): string {
    if EndsWith(c, '@') then Strip(c[..|c| - 1]) else c
  }

  function KindOf(line: string): Kind {
    var s := Strip(line);
    if StartsWith(s, "@if ") then
      var c := DropMark(Strip(s[4..]));
      if StartsWith(c, "!") then Opens(DropMark(Strip(c[1..])), true) else Opens(c, false)
    else if s == "@else@" then Else
    else if s == "@endif@" then Endif
    else Plain
  }

  /** Whether the block after an opening line is wanted; an unknown variable counts as empty. */
  predicate Holds(k: Kind, vars: seq<Binding>)
    requires k.Opens?
  {
    var v := Lookup(vars, k.name);
    Truthy(if v == None then "" else v.value) != k.invert
  }

  /** The replacements, one variable after another over the whole line. */
  function Substitute(line: string, vars: seq<Binding>): string {
    if vars == [] then line
    else
      var n := |vars| - 1;
      Replace(Substitute(line, vars[..n]), "@" + vars[n].key + "@", vars[n].value)
  }

  // ---- templates as trees ----

  datatype Forest =
    | Nil
    | Line(line: string, rest: Forest)
    | If(open: string, body: Forest, elses: Elses, close: string, rest: Forest)

  /** The `@else@` parts of a block; the script allows any number of them. */
  datatype Elses =
    | NoElse
    | ElsePart(mark: string, body: Forest, more: Elses)

  predicate WellFormed(f: Forest) {
    match f
    case Nil => true
    case Line(line, rest) => KindOf(line) == Plain && WellFormed(rest)
    case If(open, body, elses, close, rest) =>
      KindOf(open).Opens? && WellFormed(body) && WellFormedElses(elses) && KindOf(close) == Endif && WellFormed(rest)
  }

  predicate WellFormedElses(e: Elses) {
    match e
    case NoElse => true
    case ElsePart(mark, body, more) => KindOf(mark) == Else && WellFormed(body) && WellFormedElses(more)
  }

  function Lines(f: Forest): seq<string> {
    match f
    case Nil => []
    case Line(line, rest) => [line] + Lines(rest)
    case If(open, body, elses, close, rest) => [open] + Lines(body) + ElseLines(elses) + [close] + Lines(rest)
  }

  function ElseLines(e: Elses): seq<string> {
    match e
    case NoElse => []
    case ElsePart(mark, body, more) => [mark] + Lines(body) + ElseLines(more)
  }

  /** The lines a template stands for: a true block gives its first part, a false one its second, and so on in turn. */
  function Meaning(f: Forest, vars: seq<Binding>): seq<string>
    requires WellFormed(f)
  {
    match f
    case Nil => []
    case Line(line, rest) => [Substitute(line, vars)] + Meaning(rest, vars)
    case If(open, body, elses, _, rest) =>
      var on := Holds(KindOf(open), vars);
      (if on then Meaning(body, vars) else []) + ElseMeaning(elses, vars, !on) + Meaning(rest, vars)
  }

  function ElseMeaning(e: Elses, vars: seq<Binding>, on: bool): seq<string>
    requires WellFormedElses(e)
  {
    match e
    case NoElse => []
    case ElsePart(_, body, more) => (if on then Meaning(body, vars) else []) + ElseMeaning(more, vars, !on)
  }

  // ---- the stack machine ----

  datatype Fault =
    | StrayElse
    | StrayEndif
    | Unclosed

  datatype Result =
    | Rendered(lines: seq<string>)
    | Refused(fault: Fault)

  /** The parent's activity and its own. */
  datatype Level = Level(parent: bool, current: bool)

  function Scan(lines: seq<string>, vars: seq<Binding>, stack: seq<Level>, active: bool, out: seq<string>): Result {
    if lines == [] then if stack == [] then Rendered(out) else Refused(Unclosed)
    else
      var k, rest, n := KindOf(lines[0]), lines[1..], |stack| - 1;
      match k
      case Opens(_, _) =>
        var now := active && Holds(k, vars);
        Scan(rest, vars, stack + [Level(active, now)], now, out)
      case Else =>
        if stack == [] then Refused(StrayElse)
        else
          var now := stack[n].parent && !stack[n].current;
          Scan(rest, vars, stack[..n] + [Level(stack[n].parent, now)], now, out)
      case Endif => if stack == [] then Refused(StrayEndif) else Scan(rest, vars, stack[..n], stack[n].parent, out)
      case Plain => Scan(rest, vars, stack, active, if active then out + [Substitute(lines[0], vars)] else out)
  }

  /** What is wrong with a list of lines that starts `depth` blocks deep, if anything: only nesting matters. */
  function FaultIn(lines: seq<string>, depth: nat): Option<Fault> {
    if lines == [] then if depth == 0 then None else Some(Unclosed)
    else
      match KindOf(lines[0])
      case Opens(_, _) => FaultIn(lines[1..], depth + 1)
      case Else => if depth == 0 then Some(StrayElse) else FaultIn(lines[1..], depth)
      case Endif => if depth == 0 then Some(StrayEndif) else FaultIn(lines[1..], depth - 1)
      case Plain => FaultIn(lines[1..], depth)
  }

  /** Which fault is which. */
  lemma FaultSamples()
    ensures FaultIn(["@else@"], 0) == Some(StrayElse) && FaultIn(["@endif@"], 0) == Some(StrayEndif)
    ensures FaultIn(["@if X@"], 0) == Some(Unclosed) && FaultIn(["text"], 0) == None
  {
    hide KindOf;
    KindSamples();
    assert ["@else@"][1..] == [] && ["@endif@"][1..] == [] && ["@if X@"][1..] == [] && ["text"][1..] == [];
    assert FaultIn([], 1) == Some(Unclosed);
  }

  lemma KindSamples()
    ensures KindOf("@else@") == Else && KindOf("@endif@") == Endif && KindOf("@if X@").Opens? && KindOf("text") == Plain
  {
    hide Strip, DropMark;
    StripPlain("@else@");
    StripPlain("@endif@");
    StripPlain("@if X@");
    StripPlain("text");
    assert "@else@"[1] == 'e' && "@endif@"[1] == 'e' && "@if "[1] == 'i' && "text"[0] == 't' && "@if "[0] == '@';
  }

  lemma {:induction false} ScanRefusesFaults(lines: seq<string>, vars: seq<Binding>, stack: seq<Level>, active: bool,
                                             out: seq<string>)
    ensures var r := Scan(lines, vars, stack, active, out);
            match FaultIn(lines, |stack|)
            case None => r.Rendered?
            case Some(fault) => r == Refused(fault)
    decreases |lines|
  {
    hide KindOf, Holds, Substitute;
    if lines != [] {
      var k, rest, n := KindOf(lines[0]), lines[1..], |stack| - 1;
      match k
      case Opens(_, _) =>
        var now := active && Holds(k, vars);
        ScanRefusesFaults(rest, vars, stack + [Level(active, now)], now, out);
      case Else =>
        if stack != [] {
          var now := stack[n].parent && !stack[n].current;
          ScanRefusesFaults(rest, vars, stack[..n] + [Level(stack[n].parent, now)], now, out);
        }
      case Endif =>
        if stack != [] {
          ScanRefusesFaults(rest, vars, stack[..n], stack[n].parent, out);
        }
      case Plain =>
        ScanRefusesFaults(rest, vars, stack, active, if active then out + [Substitute(lines[0], vars)] else out);
    }
  }

  /**
   Over the lines of a whole template the machine adds its meaning, or nothing where it is inactive, and ends where
   it began.
   */
  lemma {:induction false} ScanForest(f: Forest, tail: seq<string>, vars: seq<Binding>, stack: seq<Level>,
                                      active: bool, out: seq<string>)
    requires WellFormed(f)
    ensures Scan(Lines(f) + tail, vars, stack, active, out)
         == Scan(tail, vars, stack, active, if active then out + Meaning(f, vars) else out)
    decreases f, 1
  {
    hide KindOf, Holds, Substitute;
    match f
    case Nil =>
      assert Lines(f) + tail == tail;
      assert out + Meaning(f, vars) == out;
    case Line(line, rest) =>
      assert (Lines(f) + tail)[1..] == Lines(rest) + tail;
      var next := if active then out + [Substitute(line, vars)] else out;
      ScanForest(rest, tail, vars, stack, active, next);
      assert active ==> next + Meaning(rest, vars) == out + Meaning(f, vars);
    case If(_, _, _, _, _) => ScanBlock(f, tail, vars, stack, active, out);
  }

  /** The same for a template that begins with a block. */
  lemma {:induction false} ScanBlock(f: Forest, tail: seq<string>, vars: seq<Binding>, stack: seq<Level>,
                                     active: bool, out: seq<string>)
    requires WellFormed(f) && f.If?
    ensures Scan(Lines(f) + tail, vars, stack, active, out)
         == Scan(tail, vars, stack, active, if active then out + Meaning(f, vars) else out)
    decreases f, 0
  {
    hide KindOf, Holds, Substitute, Meaning, Lines, ElseLines, ElseMeaning;
    var on := Holds(KindOf(f.open), vars);
    var now := active && on;
    var afterRest := Lines(f.rest) + tail;
    var afterElses := [f.close] + afterRest;
    var afterBody := ElseLines(f.elses) + afterElses;
    BlockLines(f, tail);
    var out1 := if now then out + Meaning(f.body, vars) else out;
    ScanForest(f.body, afterBody, vars, stack + [Level(active, now)], now, out);
    var out2 := if active then out1 + ElseMeaning(f.elses, vars, !on) else out1;
    ScanElses(f.elses, afterElses, vars, stack, active, on, out1);
    assert afterElses[1..] == afterRest;
    ScanForest(f.rest, tail, vars, stack, active, out2);
    BlockMeaning(f, vars, out);
  }

  lemma BlockLines(f: Forest, tail: seq<string>)
    requires f.If?
    ensures var r := Lines(f.body) + (ElseLines(f.elses) + ([f.close] + (Lines(f.rest) + tail)));
            Lines(f) + tail == [f.open] + r && (Lines(f) + tail)[0] == f.open && (Lines(f) + tail)[1..] == r
  {
  }

  lemma BlockMeaning(f: Forest, vars: seq<Binding>, out: seq<string>)
    requires f.If? && WellFormed(f)
    ensures var on := Holds(KindOf(f.open), vars);
            var out1 := if on then out + Meaning(f.body, vars) else out;
            out1 + ElseMeaning(f.elses, vars, !on) + Meaning(f.rest, vars) == out + Meaning(f, vars)
  {
    hide KindOf, Holds;
  }

  /** The parts after `@else@` are taken in turn; what follows must close the block. */
  lemma {:induction false} ScanElses(e: Elses, tail: seq<string>, vars: seq<Binding>, stack: seq<Level>,
                                     active: bool, on: bool, out: seq<string>)
    requires WellFormedElses(e)
    requires tail != [] && KindOf(tail[0]) == Endif
    ensures Scan(ElseLines(e) + tail, vars, stack + [Level(active, active && on)], active && on, out)
         == Scan(tail[1..], vars, stack, active, if active then out + ElseMeaning(e, vars, !on) else out)
    decreases e, 1
  {
    hide KindOf, Holds, Substitute;
    var deeper := stack + [Level(active, active && on)];
    assert deeper[..|deeper| - 1] == stack;
    match e
    case NoElse =>
      assert ElseLines(e) + tail == tail;
      assert out + ElseMeaning(e, vars, !on) == out;
    case ElsePart(mark, body, more) =>
      var now := active && !on;
      assert (ElseLines(e) + tail)[1..] == Lines(body) + (ElseLines(more) + tail);
      var out1 := if now then out + Meaning(body, vars) else out;
      ScanForest(body, ElseLines(more) + tail, vars, stack + [Level(active, now)], now, out);
      ScanElses(more, tail, vars, stack, active, !on, out1);
      assert active ==> out1 + ElseMeaning(more, vars, on) == out + ElseMeaning(e, vars, !on);
  }

  // ---- every accepted list of lines is a template ----

  lemma {:induction false} ForestOf(lines: seq<string>, depth: nat) returns (f: Forest, rest: seq<string>)
    requires FaultIn(lines, depth) == None
    ensures WellFormed(f) && lines == Lines(f) + rest && FaultIn(rest, depth) == None
    ensures if rest == [] then depth == 0 else depth > 0 && (KindOf(rest[0]) == Else || KindOf(rest[0]) == Endif)
    decreases |lines|, 1
  {
    hide KindOf;
    f, rest := Nil, lines;
    if lines != [] {
      match KindOf(lines[0])
      case Opens(_, _) =>
        var body, afterBody := ForestOf(lines[1..], depth + 1);
        var elses, afterElses := ElsesOf(afterBody, depth + 1);
        f, rest := ForestOf(afterElses[1..], depth);
        BlockLines(If(lines[0], body, elses, afterElses[0], f), rest);
        f := If(lines[0], body, elses, afterElses[0], f);
      case Plain =>
        f, rest := ForestOf(lines[1..], depth);
        f := Line(lines[0], f);
      case _ =>
    }
  }

  lemma {:induction false} ElsesOf(lines: seq<string>, depth: nat) returns (e: Elses, rest: seq<string>)
    requires depth > 0 && FaultIn(lines, depth) == None
    requires lines != [] && (KindOf(lines[0]) == Else || KindOf(lines[0]) == Endif)
    ensures WellFormedElses(e) && lines == ElseLines(e) + rest
    ensures rest != [] && KindOf(rest[0]) == Endif && FaultIn(rest, depth) == None
    decreases |lines|, 0
  {
    hide KindOf;
    e, rest := NoElse, lines;
    if KindOf(lines[0]) == Else {
      var body, afterBody := ForestOf(lines[1..], depth);
      e, rest := ElsesOf(afterBody, depth);
      e := ElsePart(lines[0], body, e);
    }
  }

  /** The machine accepts exactly the lines of well-formed templates, and then yields their meaning. */
  lemma AcceptsTemplates(lines: seq<string>, vars: seq<Binding>)
    ensures var r := Scan(lines, vars, [], true, []);
            && (r.Rendered? <==> exists f :: WellFormed(f) && Lines(f) == lines)
            && (forall f | WellFormed(f) && Lines(f) == lines :: r == Rendered(Meaning(f, vars)))
  {
    hide KindOf, Holds, Substitute, Scan;
    ScanRefusesFaults(lines, vars, [], true, []);
    if FaultIn(lines, 0) == None {
      var f, rest := ForestOf(lines, 0);
      assert Lines(f) == lines;
    }
    forall f | WellFormed(f) && Lines(f) == lines
      ensures Scan(lines, vars, [], true, []) == Rendered(Meaning(f, vars))
    {
      ScanForest(f, [], vars, [], true, []);
      ScanNothing(vars, Meaning(f, vars));
      assert Lines(f) + [] == lines && [] + Meaning(f, vars) == Meaning(f, vars);
    }
  }

  lemma ScanNothing(vars: seq<Binding>, out: seq<string>)
    ensures Scan([], vars, [], true, out) == Rendered(out)
  {
  }

  // ---- the script's loops ----

  /** The replacements in one line. */
  method RenderLine(line: string, vars: seq<Binding>) returns (rendered: string)
    ensures rendered == Substitute(line, vars)
  {
    rendered := line;
    for n := 0 to |vars|
      invariant rendered == Substitute(line, vars[..n])
    {
      assert vars[..n + 1][..n] == vars[..n];
      rendered := Replace(rendered, "@" + vars[n].key + "@", vars[n].value);
    }
    assert vars[..|vars|] == vars;
  }

  /** `render`, from the lines of the template to the lines of the output. */
  method Render(lines: seq<string>, vars: seq<Binding>) returns (r: Result)
    ensures match FaultIn(lines, 0)
            case None => r.Rendered?
            case Some(fault) => r == Refused(fault)
    ensures r.Rendered? <==> exists f :: WellFormed(f) && Lines(f) == lines
    ensures forall f | WellFormed(f) && Lines(f) == lines :: r == Rendered(Meaning(f, vars))
  {
    hide KindOf, Holds, Substitute, FaultIn, WellFormed, Meaning, Lines;
    AcceptsTemplates(lines, vars);
    ScanRefusesFaults(lines, vars, [], true, []);
    var stack: seq<Level>, active, out := [], true, [];
    for i := 0 to |lines|
      invariant Scan(lines[i..], vars, stack, active, out) == Scan(lines, vars, [], true, [])
    {
      var line, n := lines[i], |stack| - 1;
      assert lines[i..][1..] == lines[i + 1..];
      match KindOf(line)
      case Opens(name, invert) =>
        stack := stack + [Level(active, active && Holds(KindOf(line), vars))];
        active := stack[n + 1].current;
      case Else =>
        if stack == [] {
          return Refused(StrayElse);
        }
        active := stack[n].parent && !stack[n].current;
        stack := stack[..n] + [Level(stack[n].parent, active)];
      case Endif =>
        if stack == [] {
          return Refused(StrayEndif);
        }
        active := stack[n].parent;
        stack := stack[..n];
      case Plain =>
        if active {
          var rendered := RenderLine(line, vars);
          out := out + [rendered];
        }
    }
    return if stack == [] then Rendered(out) else Refused(Unclosed);
  }

  // ---- directives and placeholders as they are meant to be written ----

  /** A name that no trimming touches. */
  predicate PlainName(name: string) {
    name != "" && !IsSpace(name[0]) && !IsSpace(name[|name| - 1]) && name[0] != '!' && name[|name| - 1] != '@'
  }

  predicate Blank(s: string) {
    forall i | 0 <= i < |s| :: IsSpace(s[i])
  }

  lemma {:induction false} StripLeftOfBlank(pre: string, core: string)
    requires Blank(pre) && (core == "" || !IsSpace(core[0]))
    ensures StripLeft(pre + core) == core
    decreases |pre|
  {
    hide IsSpace;
    if pre == "" {
      assert pre + core == core;
    } else {
      assert (pre + core)[1..] == pre[1..] + core;
      StripLeftOfBlank(pre[1..], core);
    }
  }

  lemma {:induction false} StripRightOfBlank(core: string, post: string)
    requires Blank(post) && (core == "" || !IsSpace(core[|core| - 1]))
    ensures StripRight(core + post) == core
    decreases |post|
  {
    hide IsSpace;
    var n := |post| - 1;
    if post == "" {
      assert core + post == core;
    } else {
      assert (core + post)[..|core| + n] == core + post[..n];
      StripRightOfBlank(core, post[..n]);
    }
  }

  /** Stripping removes exactly the blank ends. */
  lemma StripOfBlank(pre: string, core: string, post: string)
    requires Blank(pre) && Blank(post) && (core == "" || (!IsSpace(core[0]) && !IsSpace(core[|core| - 1])))
    ensures Strip(pre + core + post) == core
  {
    hide IsSpace;
    if core == "" {
      assert Blank(pre + post) && pre + core + post == (pre + post) + "";
      StripLeftOfBlank(pre + post, "");
    } else {
      assert pre + core + post == pre + (core + post);
      StripLeftOfBlank(pre, core + post);
      StripRightOfBlank(core, post);
    }
  }

  lemma StripPlain(core: string)
    requires core == "" || (!IsSpace(core[0]) && !IsSpace(core[|core| - 1]))
    ensures Strip(core) == core
  {
    assert "" + core + "" == core;
    StripOfBlank("", core, "");
  }

  /** Directives are read as written, wherever they are indented and however the line ends. */
  lemma DirectivesAreRead(pre: string, name: string, post: string)
    requires Blank(pre) && Blank(post) && PlainName(name)
    ensures KindOf(pre + ("@if " + name + "@") + post) == Opens(name, false)
    ensures KindOf(pre + ("@if !" + name + "@") + post) == Opens(name, true)
    ensures KindOf(pre + "@else@" + post) == Else
    ensures KindOf(pre + "@endif@" + post) == Endif
  {
    hide Strip, DropMark;
    StripOfBlank(pre, "@else@", post);
    StripOfBlank(pre, "@endif@", post);
    assert "@else@"[1] == 'e' && "@endif@"[1] == 'e' && "@if "[1] == 'i';
    OpeningIsRead(pre, name, post);
    NegationIsRead(pre, name, post);
  }

  lemma OpeningIsRead(pre: string, name: string, post: string)
    requires Blank(pre) && Blank(post) && PlainName(name)
    ensures KindOf(pre + ("@if " + name + "@") + post) == Opens(name, false)
  {
    hide Strip;
    var s := "@if " + name + "@";
    StripOfBlank(pre, s, post);
    assert s[4..] == name + "@" && (name + "@")[..|name|] == name;
    StripPlain(name + "@");
    StripPlain(name);
  }

  lemma NegationIsRead(pre: string, name: string, post: string)
    requires Blank(pre) && Blank(post) && PlainName(name)
    ensures KindOf(pre + ("@if !" + name + "@") + post) == Opens(name, true)
  {
    hide Strip;
    var s, c := "@if !" + name + "@", "!" + name;
    StripOfBlank(pre, s, post);
    assert s[4..] == c + "@" && (c + "@")[..|c|] == c && c[1..] == name;
    StripPlain(c + "@");
    StripPlain(c);
    StripPlain(name);
  }
}
