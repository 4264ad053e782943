/** The placeholder replacements of render_template.py: when a line gets the values of its variables, and when not. */
module Placeholders {
  import opened Options
  import opened Template

  predicate Without(s: string, c: char) {
    forall i | 0 <= i < |s| :: s[i] != c
  }

  /** Text without `@` passes through a replacement untouched. */
  lemma {:induction false} SkipText(text: string, s: string, k: string, to: string)
    requires Without(text, '@')
    ensures Replace(text + s, "@" + k + "@", to) == text + Replace(s, "@" + k + "@", to)
    decreases |text|
  {
    if text == "" {
      assert text + s == s;
    } else {
      assert (text + s)[1..] == text[1..] + s;
      SkipText(text[1..], s, k, to);
      assert text == [text[0]] + text[1..];
    }
  }

  lemma HolesDiffer(key: string, post: string, k: string)
    requires Without(key, '@') && Without(k, '@') && k != key
    ensures !StartsWith("@" + key + "@" + post, "@" + k + "@")
  {
    var s, from := "@" + key + "@" + post, "@" + k + "@";
    if |k| < |key| {
      assert s[|k| + 1] == key[|k|] && from[|k| + 1] == '@';
    } else if |k| > |key| {
      assert s[|key| + 1] == '@' && from[|key| + 1] == k[|key|];
    } else {
      assert from[1..|k| + 1] == k && s[1..|k| + 1] == key;
    }
  }

  // ---- lines with any number of placeholders ----

  /** What follows the first text of a line: a placeholder, the text after it, and so on. */
  datatype Holes =
    | End
    | Hole(key: string, text: string, rest: Holes)

  function Flat(text: string, holes: Holes): string
    decreases holes
  {
    match holes
    case End => text
    case Hole(key, next, rest) => text + ("@" + key + "@" + Flat(next, rest))
  }

  /** What a placeholder stands for: its variable's value, or itself if there is no such variable. */
  function Value(vars: seq<Binding>, key: string): string {
    match Lookup(vars, key)
    case Some(v) => v
    case None => "@" + key + "@"
  }

  /** Every placeholder has its value. */
  function Expanded(text: string, holes: Holes, vars: seq<Binding>): string
    decreases holes
  {
    match holes
    case End => text
    case Hole(key, next, rest) => text + (Value(vars, key) + Expanded(next, rest, vars))
  }

  /** No `@` but those around placeholders. */
  predicate Clean(text: string, holes: Holes)
    decreases holes
  {
    Without(text, '@')
    && match holes
       case End => true
       case Hole(key, next, rest) => Without(key, '@') && Clean(next, rest)
  }

  /** No text between two placeholders is the key itself, unless the placeholder before it takes the key first. */
  predicate Apart(holes: Holes, k: string) {
    match holes
    case End => true
    case Hole(key, text, rest) => (rest.Hole? && key != k ==> text != k) && Apart(rest, k)
  }

  /** So it is for each variable in turn, with the earlier ones filled in. */
  predicate Readable(text: string, holes: Holes, vars: seq<Binding>)
    decreases |vars|
  {
    vars == []
    || (Apart(holes, vars[0].key)
        && Readable(FillText(text, holes, vars[0]), FillHoles(holes, vars[0]), vars[1..]))
  }

  /** Some character of the text occurs in no key. */
  predicate Separates(text: string, vars: seq<Binding>) {
    exists i | 0 <= i < |text| :: forall b | b in vars :: text[i] !in b.key
  }

  /** Every text between two placeholders keeps them apart. */
  predicate Separated(holes: Holes, vars: seq<Binding>) {
    match holes
    case End => true
    case Hole(_, text, rest) => (rest.Hole? ==> Separates(text, vars)) && Separated(rest, vars)
  }

  predicate CleanVars(vars: seq<Binding>) {
    forall b | b in vars :: Without(b.key, '@') && Without(b.value, '@')
  }

  /** The line after one variable was filled in: filled holes merge with the text around them. */
  function FillText(text: string, holes: Holes, b: Binding): string
    decreases holes
  {
    if holes.Hole? && holes.key == b.key then FillText(text + b.value + holes.text, holes.rest, b) else text
  }

  function FillHoles(holes: Holes, b: Binding): Holes {
    match holes
    case End => End
    case Hole(key, text, rest) =>
      if key == b.key then FillHoles(rest, b) else Hole(key, FillText(text, rest, b), FillHoles(rest, b))
  }

  lemma CleanPrefix(pre: string, text: string, holes: Holes)
    requires Without(pre, '@') && Clean(text, holes)
    ensures Clean(pre + text, holes)
  {
  }

  lemma {:induction false} FillTextKeeps(text: string, holes: Holes, b: Binding)
    ensures text <= FillText(text, holes, b)
    ensures Clean(text, holes) && Without(b.value, '@') ==> Clean(FillText(text, holes, b), FillHoles(holes, b))
    decreases holes
  {
    match holes
    case End =>
    case Hole(key, next, rest) =>
      if key == b.key {
        FillTextKeeps(text + b.value + next, rest, b);
        if Clean(text, holes) && Without(b.value, '@') {
          CleanPrefix(text + b.value, next, rest);
        }
      } else {
        FillTextKeeps(next, rest, b);
      }
  }

  lemma SeparatesMore(text: string, longer: string, b: Binding, vars: seq<Binding>)
    requires Separates(text, [b] + vars) && text <= longer
    ensures Separates(longer, vars) && text != b.key
  {
    var i :| 0 <= i < |text| && forall c | c in [b] + vars :: text[i] !in c.key;
    assert b in [b] + vars && text[i] !in b.key;
    forall c | c in vars ensures longer[i] !in c.key {
      assert c in [b] + vars && longer[i] == text[i];
    }
  }

  lemma {:induction false} FillKeepsSeparated(holes: Holes, b: Binding, vars: seq<Binding>)
    requires Separated(holes, [b] + vars)
    ensures Separated(FillHoles(holes, b), vars) && Apart(holes, b.key)
    ensures FillHoles(holes, b).Hole? ==> holes.Hole?
  {
    hide Separates;
    match holes
    case End =>
    case Hole(key, text, rest) =>
      FillKeepsSeparated(rest, b, vars);
      FillTextKeeps(text, rest, b);
      if rest.Hole? {
        SeparatesMore(text, FillText(text, rest, b), b, vars);
      }
  }

  /** What replacing one variable over the whole line does. */
  lemma {:induction false} ReplaceFills(text: string, holes: Holes, b: Binding)
    requires Clean(text, holes) && Apart(holes, b.key) && Without(b.key, '@')
    ensures Replace(Flat(text, holes), "@" + b.key + "@", b.value)
         == Flat(FillText(text, holes, b), FillHoles(holes, b))
    decreases holes
  {
    hide Replace, Without;
    match holes
    case End =>
      SkipText(text, "", b.key, b.value);
      ReplaceNothing(b);
      assert text + "" == text;
    case Hole(key, next, rest) =>
      var tail := Flat(next, rest);
      SkipText(text, "@" + key + "@" + tail, b.key, b.value);
      ReplaceFills(next, rest, b);
      if key == b.key {
        ReplaceHole(b, tail);
        FillPrefix(text + b.value, next, rest, b);
        assert text + b.value + next == (text + b.value) + next;
      } else {
        ReplaceOther(key, next, rest, b);
      }
  }

  lemma ReplaceNothing(b: Binding)
    ensures Replace("", "@" + b.key + "@", b.value) == ""
  {
  }

  lemma ReplaceHole(b: Binding, tail: string)
    ensures Replace("@" + b.key + "@" + tail, "@" + b.key + "@", b.value)
         == b.value + Replace(tail, "@" + b.key + "@", b.value)
  {
    var s, from := "@" + b.key + "@" + tail, "@" + b.key + "@";
    assert s == from + tail && s[|from|..] == tail;
  }

  /** Text in front of a line stays in front of it. */
  lemma {:induction false} FillPrefix(pre: string, text: string, holes: Holes, b: Binding)
    ensures FillText(pre + text, holes, b) == pre + FillText(text, holes, b)
    ensures Flat(pre + text, holes) == pre + Flat(text, holes)
    ensures Flat(FillText(pre + text, holes, b), FillHoles(holes, b))
         == pre + Flat(FillText(text, holes, b), FillHoles(holes, b))
    decreases holes
  {
    FlatPrefix(pre, text, holes);
    if holes.Hole? && holes.key == b.key {
      assert pre + text + b.value + holes.text == pre + (text + b.value + holes.text);
      FillPrefix(pre, text + b.value + holes.text, holes.rest, b);
    } else {
      FlatPrefix(pre, FillText(text, holes, b), FillHoles(holes, b));
    }
  }

  lemma FlatPrefix(pre: string, text: string, holes: Holes)
    ensures Flat(pre + text, holes) == pre + Flat(text, holes)
  {
    match holes
    case End =>
    case Hole(key, next, rest) =>
      var tail := "@" + key + "@" + Flat(next, rest);
      assert (pre + text) + tail == pre + (text + tail);
  }

  /** An `@` that begins no match stays. */
  lemma StepOver(s: string, b: Binding)
    requires !StartsWith("@" + s, "@" + b.key + "@")
    ensures Replace("@" + s, "@" + b.key + "@", b.value) == "@" + Replace(s, "@" + b.key + "@", b.value)
  {
    assert ("@" + s)[1..] == s;
  }

  /** A hole with another key stays, and neither of its `@` begins a match. */
  lemma ReplaceOther(key: string, next: string, rest: Holes, b: Binding)
    requires Without(key, '@') && Clean(next, rest) && Without(b.key, '@') && key != b.key
    requires rest.Hole? ==> next != b.key
    ensures var from := "@" + b.key + "@";
            Replace("@" + key + "@" + Flat(next, rest), from, b.value)
            == "@" + key + "@" + Replace(Flat(next, rest), from, b.value)
  {
    hide Replace, Clean, Flat, Without, StartsWith;
    var from, tail := "@" + b.key + "@", Flat(next, rest);
    var r := Replace(tail, from, b.value);
    HolesDiffer(key, tail, b.key);
    SecondMark(next, rest, b);
    StepOver(tail, b);
    SkipText(key, "@" + tail, b.key, b.value);
    assert "@" + (key + ("@" + tail)) == "@" + key + "@" + tail;
    StepOver(key + ("@" + tail), b);
    assert "@" + (key + ("@" + r)) == "@" + key + "@" + r;
  }

  lemma SecondMark(next: string, rest: Holes, b: Binding)
    requires Clean(next, rest) && Without(b.key, '@')
    requires rest.Hole? ==> next != b.key
    ensures !StartsWith("@" + Flat(next, rest), "@" + b.key + "@")
  {
    var s, from := "@" + Flat(next, rest), "@" + b.key + "@";
    match rest
    case End =>
      assert from[|b.key| + 1] == '@';
      assert forall i | 1 <= i < |s| :: s[i] != '@';
    case Hole(key, text, more) =>
      var post := key + "@" + Flat(text, more);
      assert s == "@" + next + "@" + post;
      HolesDiffer(next, post, b.key);
  }

  lemma {:induction false} FillExpands(text: string, holes: Holes, b: Binding, vars: seq<Binding>)
    ensures Expanded(FillText(text, holes, b), FillHoles(holes, b), vars) == Expanded(text, holes, [b] + vars)
    decreases holes
  {
    LookupFirst(b, vars);
    match holes
    case End =>
    case Hole(key, next, rest) =>
      if key == b.key {
        FillExpands(text + b.value + next, rest, b, vars);
        ExpandedPrefix(text + b.value, next, rest, [b] + vars);
        var tail := Expanded(next, rest, [b] + vars);
        assert (text + b.value) + tail == text + (b.value + tail);
      } else {
        FillExpands(next, rest, b, vars);
      }
  }

  lemma LookupFirst(b: Binding, vars: seq<Binding>)
    ensures forall key :: Lookup([b] + vars, key) == if key == b.key then Some(b.value) else Lookup(vars, key)
  {
    assert ([b] + vars)[1..] == vars;
  }

  lemma ExpandedPrefix(pre: string, text: string, holes: Holes, vars: seq<Binding>)
    ensures Expanded(pre + text, holes, vars) == pre + Expanded(text, holes, vars)
  {
    match holes
    case End =>
    case Hole(key, next, rest) =>
      var tail := Value(vars, key) + Expanded(next, rest, vars);
      assert (pre + text) + tail == pre + (text + tail);
  }

  /** The variables can be filled in from the first one on. */
  lemma {:induction false} SubstituteFirst(line: string, b: Binding, vars: seq<Binding>)
    ensures Substitute(line, [b] + vars) == Substitute(Replace(line, "@" + b.key + "@", b.value), vars)
    decreases |vars|
  {
    hide Replace;
    var all := [b] + vars;
    if vars == [] {
      assert all == [b] && all[..0] == [];
    } else {
      var n := |vars| - 1;
      assert all[..n + 1] == [b] + vars[..n] && all[n + 1] == vars[n];
      SubstituteFirst(line, b, vars[..n]);
    }
  }

  /** A line with any number of placeholders gets the value of each, if it stays readable for every variable in turn. */
  lemma {:induction false} PlaceholdersFilled(text: string, holes: Holes, vars: seq<Binding>)
    requires Clean(text, holes) && Readable(text, holes, vars) && CleanVars(vars)
    ensures Substitute(Flat(text, holes), vars) == Expanded(text, holes, vars)
    decreases |vars|
  {
    hide Replace, Without, Apart;
    if vars == [] {
      NothingExpanded(text, holes);
    } else {
      var b, rest := vars[0], vars[1..];
      assert vars == [b] + rest && b in vars && forall c | c in rest :: c in vars;
      SubstituteFirst(Flat(text, holes), b, rest);
      ReplaceFills(text, holes, b);
      FillTextKeeps(text, holes, b);
      PlaceholdersFilled(FillText(text, holes, b), FillHoles(holes, b), rest);
      FillExpands(text, holes, b, rest);
    }
  }

  /** It does so if every text between two placeholders has a character that occurs in no key. */
  lemma {:induction false} SeparatedIsReadable(text: string, holes: Holes, vars: seq<Binding>)
    requires Separated(holes, vars)
    ensures Readable(text, holes, vars)
    decreases |vars|
  {
    hide Separated, Apart;
    if vars != [] {
      var b, rest := vars[0], vars[1..];
      assert vars == [b] + rest;
      FillKeepsSeparated(holes, b, rest);
      SeparatedIsReadable(FillText(text, holes, b), FillHoles(holes, b), rest);
    }
  }

  lemma {:induction false} NothingExpanded(text: string, holes: Holes)
    ensures Expanded(text, holes, []) == Flat(text, holes)
    decreases holes
  {
    if holes.Hole? {
      NothingExpanded(holes.text, holes.rest);
    }
  }

  /** A line with at most one placeholder is always readable. */
  lemma {:induction false} OneIsReadable(text: string, holes: Holes, vars: seq<Binding>)
    requires holes.Hole? ==> holes.rest == End
    ensures Readable(text, holes, vars)
    decreases |vars|
  {
    if vars != [] {
      assert FillHoles(End, vars[0]) == End;
      OneIsReadable(FillText(text, holes, vars[0]), FillHoles(holes, vars[0]), vars[1..]);
    }
  }

  lemma PlaceholderFilled(pre: string, key: string, post: string, vars: seq<Binding>)
    requires Without(pre, '@') && Without(post, '@') && Without(key, '@') && CleanVars(vars)
    ensures Substitute(pre + ("@" + key + "@" + post), vars) == pre + (Value(vars, key) + post)
  {
    hide Without, Lookup, Substitute, Readable;
    OneIsReadable(pre, Hole(key, post, End), vars);
    PlaceholdersFilled(pre, Hole(key, post, End), vars);
  }

  /** Without separation it fails: text between two placeholders is taken for a placeholder of its own. */
  lemma TextTakenForPlaceholder()
    ensures var vars := [Binding("b", "B"), Binding("a", "A")];
            var holes := Hole("a", "b", Hole("a", "", End));
            && Flat("", holes) == "@a@b@a@" && Expanded("", holes, vars) == "AbA"
            && Substitute("@a@b@a@", vars) == "@aBa@"
  {
    hide Replace;
    var b, a := Binding("b", "B"), Binding("a", "A");
    SubstituteFirst("@a@b@a@", b, [a]);
    SubstituteFirst("@aBa@", a, []);
    assert [b] + [a] == [b, a] && [a] + [] == [a];
    MiddleReplaced(b);
    OuterKept(a);
    LookupFirst(b, [a]);
    LookupFirst(a, []);
  }

  /** A misread line can come out right all the same, when a later key happens to hold what was meant. */
  lemma MisreadByLuck()
    ensures var vars := [Binding("b", "B"), Binding("aBa", "AbA"), Binding("a", "A")];
            var holes := Hole("a", "b", Hole("a", "", End));
            !Readable("", holes, vars) && Substitute("@a@b@a@", vars) == Expanded("", holes, vars) == "AbA"
  {
    hide Replace;
    var b, c, a := Binding("b", "B"), Binding("aBa", "AbA"), Binding("a", "A");
    var vars := [b, c, a];
    assert vars == [b] + [c, a] && [c, a] == [c] + [a] && [a] == [a] + [];
    SubstituteFirst("@a@b@a@", b, [c, a]);
    SubstituteFirst("@aBa@", c, [a]);
    SubstituteFirst("AbA", a, []);
    MiddleReplaced(b);
    ReplaceHole(c, "");
    ReplaceNothing(c);
    assert "@aBa@" == "@" + c.key + "@" + "" && "AbA" + "" == "AbA";
    SkipText("AbA", "", a.key, a.value);
    ReplaceNothing(a);
    LookupFirst(b, [c, a]);
    LookupFirst(c, [a]);
    LookupFirst(a, []);
    assert !Apart(Hole("a", "b", Hole("a", "", End)), "b");
  }

  lemma MiddleReplaced(b: Binding)
    requires b == Binding("b", "B")
    ensures Replace("@a@b@a@", "@" + b.key + "@", b.value) == "@aBa@"
  {
    hide Replace;
    var rest := "@" + b.key + "@" + "a@";
    assert "@a@b@a@" == "@" + ("a" + rest);
    assert ("@" + ("a" + rest))[1] == 'a' && ("@" + b.key + "@")[1] == 'b';
    StepOver("a" + rest, b);
    SkipText("a", rest, b.key, b.value);
    ReplaceHole(b, "a@");
    LastMark("a", b);
    assert "a@" == "a" + "@";
    assert "@" + ("a" + ("B" + "a@")) == "@aBa@";
  }

  lemma OuterKept(a: Binding)
    requires a.key == "a"
    ensures Replace("@aBa@", "@" + a.key + "@", a.value) == "@aBa@"
  {
    hide Replace;
    assert "@aBa@" == "@" + ("aBa" + "@");
    assert ("@" + ("aBa" + "@"))[2] == 'B' && ("@" + a.key + "@")[2] == '@';
    StepOver("aBa" + "@", a);
    LastMark("aBa", a);
  }

  lemma LastMark(text: string, b: Binding)
    requires Without(text, '@')
    ensures Replace(text + "@", "@" + b.key + "@", b.value) == text + "@"
  {
    hide Replace;
    SkipText(text, "@", b.key, b.value);
    StepOver("", b);
    ReplaceNothing(b);
    assert "@" + "" == "@";
  }

  // ---- exactly which lines with two placeholders fail ----

  /** A key equal to the text between the placeholders comes before both of theirs. */
  predicate Misread(keys: seq<string>, a: string, t: string, b: string) {
    t != a && exists p | 0 <= p < |keys| :: keys[p] == t && forall q | 0 <= q < p :: keys[q] != a && keys[q] != b
  }

  /** The keys with given values. */
  function Zip(keys: seq<string>, values: seq<string>): (vars: seq<Binding>)
    requires |keys| == |values|
    ensures |vars| == |keys|
    ensures forall i | 0 <= i < |keys| :: vars[i] == Binding(keys[i], values[i])
  {
    if keys == [] then [] else [Binding(keys[0], values[0])] + Zip(keys[1..], values[1..])
  }

  function Two(a: string, t: string, b: string, u: string): Holes {
    Hole(a, t, Hole(b, u, End))
  }

  lemma MisreadLater(keys: seq<string>, a: string, t: string, b: string)
    requires keys != [] && keys[0] != a && keys[0] != b && Misread(keys[1..], a, t, b)
    ensures Misread(keys, a, t, b)
  {
    var rest := keys[1..];
    var p :| 0 <= p < |rest| && rest[p] == t && forall q | 0 <= q < p :: rest[q] != a && rest[q] != b;
    assert keys[p + 1] == t;
    forall q | 0 <= q < p + 1 ensures keys[q] != a && keys[q] != b {
      assert q == 0 || keys[q] == rest[q - 1];
    }
  }

  lemma {:induction false} TwoAreReadable(text: string, a: string, t: string, b: string, u: string, vars: seq<Binding>,
                                          keys: seq<string>)
    requires |keys| == |vars| && (forall i | 0 <= i < |keys| :: keys[i] == vars[i].key) && !Misread(keys, a, t, b)
    ensures Readable(text, Two(a, t, b, u), vars)
    decreases |vars|
  {
    if vars != [] {
      var v, rest := vars[0], vars[1..];
      var holes := Two(a, t, b, u);
      assert v.key == keys[0];
      var inner := Hole(b, u, End);
      assert Apart(inner, v.key) && Apart(holes, v.key);
      assert FillHoles(End, v) == End && FillText(u, End, v) == u;
      assert FillHoles(inner, v) == if b == v.key then End else inner;
      if v.key == a || v.key == b {
        OneIsReadable(FillText(text, holes, v), FillHoles(holes, v), rest);
      } else {
        if Misread(keys[1..], a, t, b) {
          MisreadLater(keys, a, t, b);
        }
        assert FillText(t, inner, v) == t;
        TwoAreReadable(text, a, t, b, u, rest, keys[1..]);
      }
    }
  }

  /** What replacing the text between the placeholders makes of the line: one placeholder that nobody wrote. */
  lemma MisreadStep(text: string, a: string, t: string, b: string, u: string, v: Binding)
    requires Clean(text, Two(a, t, b, u)) && v.key == t != a
    ensures Replace(Flat(text, Two(a, t, b, u)), "@" + v.key + "@", v.value)
         == Flat(text, Hole(a + v.value + b, u, End))
  {
    hide Replace;
    assert Clean(t, Hole(b, u, End)) && Clean(u, End);
    var last := "@" + u;
    var tail := "@" + t + "@" + (b + last);
    var inner := Flat(t, Hole(b, u, End));
    assert Flat(u, End) == u && inner == t + ("@" + b + "@" + u);
    assert "@" + a + "@" + inner == "@" + (a + tail) == "@" + a + "@" + (t + "@" + (b + last));
    SkipText(text, "@" + (a + tail), v.key, v.value);
    HolesDiffer(a, t + "@" + (b + last), t);
    StepOver(a + tail, v);
    SkipText(a, tail, v.key, v.value);
    ReplaceHole(v, b + last);
    SkipText(b, last, v.key, v.value);
    SecondMark(u, End, v);
    StepOver(u, v);
    SkipText(u, "", v.key, v.value);
    ReplaceNothing(v);
    assert u + "" == u;
    assert "@" + (a + (v.value + (b + last))) == "@" + (a + v.value + b) + "@" + u;
  }

  lemma {:induction false} NoSuchKey(vars: seq<Binding>, key: string)
    requires forall c | c in vars :: c.key != key
    ensures Lookup(vars, key) == None
  {
    if vars != [] {
      assert vars[0] in vars && forall c | c in vars[1..] :: c in vars;
      NoSuchKey(vars[1..], key);
    }
  }

  /** Variables that have the value `x` under the key `t` and none elsewhere, all with keys shorter than `n`. */
  predicate Marked(vars: seq<Binding>, t: string, x: string, n: nat) {
    forall c | c in vars :: c.value == (if c.key == t then x else "") && |c.key| < n
  }

  /** The misread line stays as it is: no key is as long as its placeholder. */
  lemma {:induction false} MisreadLine(text: string, a: string, t: string, b: string, u: string,
                                       vars: seq<Binding>, keys: seq<string>, x: string)
    requires Clean(text, Two(a, t, b, u)) && CleanVars(vars) && Without(x, '@')
    requires |keys| == |vars| && (forall i | 0 <= i < |keys| :: keys[i] == vars[i].key)
    requires Misread(keys, a, t, b) && Marked(vars, t, x, |x|)
    ensures Substitute(Flat(text, Two(a, t, b, u)), vars) == Flat(text, Hole(a + x + b, u, End))
    decreases |vars|
  {
    hide Replace, Substitute, Flat, Without, Misread, Clean;
    MisreadHasKey(keys, a, t, b);
    var v, rest := vars[0], vars[1..];
    assert vars == [v] + rest && v in vars && forall c | c in rest :: c in vars;
    SubstituteFirst(Flat(text, Two(a, t, b, u)), v, rest);
    if v.key == t {
      MisreadStep(text, a, t, b, u, v);
      LongKeyKept(text, a, x, b, u, rest, t);
    } else {
      MisreadEarlier(keys, a, t, b);
      KeptByOthers(text, a, t, b, u, v);
      MisreadLine(text, a, t, b, u, rest, keys[1..], x);
    }
  }

  lemma MisreadHasKey(keys: seq<string>, a: string, t: string, b: string)
    requires Misread(keys, a, t, b)
    ensures keys != [] && t != a
  {
  }

  lemma LongKeyKept(text: string, a: string, x: string, b: string, u: string, vars: seq<Binding>, t: string)
    requires Clean(text, Two(a, t, b, u)) && CleanVars(vars) && Without(x, '@') && Marked(vars, t, x, |x|)
    ensures var line := Flat(text, Hole(a + x + b, u, End));
            Substitute(line, vars) == line
  {
    hide Substitute;
    var key := a + x + b;
    assert Clean(u, End) && Clean(t, Hole(b, u, End)) && Without(key, '@');
    assert Flat(u, End) == u;
    NoSuchKey(vars, key);
    PlaceholderFilled(text, key, u, vars);
  }

  lemma MisreadEarlier(keys: seq<string>, a: string, t: string, b: string)
    requires Misread(keys, a, t, b) && keys[0] != t
    ensures keys[0] != a && keys[0] != b && Misread(keys[1..], a, t, b)
  {
    var p :| 0 <= p < |keys| && keys[p] == t && forall q | 0 <= q < p :: keys[q] != a && keys[q] != b;
    assert keys[1..][p - 1] == t;
    assert keys[0] != a && keys[0] != b;
    forall q | 0 <= q < p - 1 ensures keys[1..][q] != a && keys[1..][q] != b {
      assert keys[1..][q] == keys[q + 1];
    }
  }

  lemma KeptByOthers(text: string, a: string, t: string, b: string, u: string, v: Binding)
    requires Clean(text, Two(a, t, b, u)) && Without(v.key, '@') && v.key != a && v.key != b && v.key != t
    ensures Replace(Flat(text, Two(a, t, b, u)), "@" + v.key + "@", v.value) == Flat(text, Two(a, t, b, u))
  {
    hide Replace;
    var holes, inner := Two(a, t, b, u), Hole(b, u, End);
    assert Apart(End, v.key) && Apart(inner, v.key);
    assert FillHoles(End, v) == End && FillText(u, End, v) == u;
    assert FillHoles(inner, v) == inner && FillText(t, inner, v) == t;
    ReplaceFills(text, holes, v);
  }

  lemma {:induction false} MarkedLookup(vars: seq<Binding>, t: string, x: string, n: nat, key: string)
    requires Marked(vars, t, x, n)
    ensures Lookup(vars, key) == None || Lookup(vars, key) == Some(if key == t then x else "")
    ensures (exists i | 0 <= i < |vars| :: vars[i].key == key) ==> Lookup(vars, key) != None
  {
    if vars != [] {
      assert vars[0] in vars && forall c | c in vars[1..] :: c in vars;
      MarkedLookup(vars[1..], t, x, n, key);
      if i :| 1 <= i < |vars| && vars[i].key == key {
        assert vars[1..][i - 1].key == key;
      }
    }
  }

  lemma ExpandedTwo(text: string, a: string, t: string, b: string, u: string, vars: seq<Binding>)
    ensures Expanded(text, Two(a, t, b, u), vars) == text + (Value(vars, a) + (t + (Value(vars, b) + u)))
  {
    assert Expanded(u, End, vars) == u;
    assert Expanded(t, Hole(b, u, End), vars) == t + (Value(vars, b) + u);
  }

  /** The misread line is not what the placeholders mean: it is too long, or has the marker in the wrong place. */
  lemma MisreadIsWrong(text: string, a: string, t: string, b: string, u: string, vars: seq<Binding>, x: string)
    requires Marked(vars, t, x, |x|) && t != a && |x| > |t| + 2 && Without(x, '@')
    requires exists i | 0 <= i < |vars| :: vars[i].key == t
    ensures Expanded(text, Two(a, t, b, u), vars) != Flat(text, Hole(a + x + b, u, End))
  {
    ExpandedTwo(text, a, t, b, u, vars);
    MarkedLookup(vars, t, x, |x|, a);
    MarkedLookup(vars, t, x, |x|, b);
    var wrong := text + ("@" + (a + x + b) + "@" + u);
    assert Flat(u, End) == u && Flat(text, Hole(a + x + b, u, End)) == wrong;
    var right := text + (Value(vars, a) + (t + (Value(vars, b) + u)));
    if t == b && Lookup(vars, a) == None {
      var at := |text| + 1 + |a|;
      assert right[at] == ("@" + a + "@")[1 + |a|] == '@';
      assert wrong[at] == x[0];
    }
  }

  function Longest(keys: seq<string>): (n: nat)
    ensures forall k | k in keys :: |k| <= n
  {
    if keys == [] then 0 else |keys[0]| + Longest(keys[1..])
  }

  function Marks(keys: seq<string>, t: string, x: string): (values: seq<string>)
    ensures |values| == |keys|
    ensures forall i | 0 <= i < |keys| :: values[i] == if keys[i] == t then x else ""
  {
    if keys == [] then [] else [if keys[0] == t then x else ""] + Marks(keys[1..], t, x)
  }

  predicate AllWithout(values: seq<string>, c: char) {
    forall v | v in values :: Without(v, c)
  }

  lemma MarksAreMarked(keys: seq<string>, t: string, x: string)
    requires AllWithout(keys, '@') && |x| > Longest(keys) && forall i | 0 <= i < |x| :: x[i] == 'x'
    ensures var vars := Zip(keys, Marks(keys, t, x));
            Without(x, '@') && AllWithout(Marks(keys, t, x), '@') && CleanVars(vars) && Marked(vars, t, x, |x|)
  {
    hide Longest, Marks;
    var values := Marks(keys, t, x);
    var vars := Zip(keys, values);
    forall c | c in vars ensures c.value == (if c.key == t then x else "") && c.key in keys {
      var i :| 0 <= i < |vars| && vars[i] == c;
      assert c.key == keys[i] && c.value == values[i];
    }
    forall v | v in values ensures v == x || v == "" {
      var i :| 0 <= i < |values| && values[i] == v;
    }
  }

  lemma MisreadFails(text: string, a: string, t: string, b: string, u: string, keys: seq<string>)
    returns (values: seq<string>)
    requires Clean(text, Two(a, t, b, u)) && AllWithout(keys, '@') && Misread(keys, a, t, b)
    ensures |values| == |keys| && AllWithout(values, '@')
    ensures var vars := Zip(keys, values);
            Substitute(Flat(text, Two(a, t, b, u)), vars) != Expanded(text, Two(a, t, b, u), vars)
  {
    hide Substitute, Expanded, Flat, Clean, Without, Marked, CleanVars;
    var x: string := seq(Longest(keys) + |t| + 3, _ => 'x');
    values := Marks(keys, t, x);
    var vars := Zip(keys, values);
    MarksAreMarked(keys, t, x);
    MisreadLine(text, a, t, b, u, vars, keys, x);
    var p :| 0 <= p < |keys| && keys[p] == t;
    assert vars[p].key == t;
    MisreadIsWrong(text, a, t, b, u, vars, x);
  }

  /**
   A line with two placeholders gets their values, whatever the values are, exactly if no key equal to the text between
   them comes before both of their own. For one choice of values a misread line can come out right by coincidence.
   */
  lemma TwoPlaceholdersExactly(text: string, a: string, t: string, b: string, u: string, keys: seq<string>)
    requires Clean(text, Two(a, t, b, u)) && AllWithout(keys, '@')
    ensures (forall values: seq<string> :: |values| == |keys| && AllWithout(values, '@') ==>
               var vars := Zip(keys, values);
               Substitute(Flat(text, Two(a, t, b, u)), vars) == Expanded(text, Two(a, t, b, u), vars))
       <==> !Misread(keys, a, t, b)
  {
    hide Substitute, Expanded, Flat, Readable, Misread;
    if Misread(keys, a, t, b) {
      var values := MisreadFails(text, a, t, b, u, keys);
    } else {
      forall values: seq<string> | |values| == |keys| && AllWithout(values, '@')
        ensures var vars := Zip(keys, values);
                Substitute(Flat(text, Two(a, t, b, u)), vars) == Expanded(text, Two(a, t, b, u), vars)
      {
        var vars := Zip(keys, values);
        TwoAreReadable(text, a, t, b, u, vars, keys);
        PlaceholdersFilled(text, Two(a, t, b, u), vars);
      }
    }
  }
}
