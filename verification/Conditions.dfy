/** render_template.py: which part of a conditional block is rendered, from the items of the command line on. */
module Conditions {
  import opened Options
  import opened Template
  import opened Placeholders

  // ---- items ----

  /** The item is the name, perhaps with blanks around it, an equals sign, and the value. */
  ghost predicate Gives(item: string, name: string, value: string) {
    exists pre, post :: Blank(pre) && Blank(post) && item == pre + name + post + ("=" + value)
  }

  ghost predicate Names(item: string, name: string) {
    exists value :: Gives(item, name, value)
  }

  /** A name that an item can give a value to as it stands. */
  predicate ItemName(name: string) {
    PlainName(name) && Without(name, '=')
  }

  lemma {:induction false} EqualsAfter(key: string, value: string)
    requires Without(key, '=')
    ensures FirstEquals(key + ("=" + value)) == |key|
    decreases |key|
  {
    var s := key + ("=" + value);
    if key != "" {
      assert s[1..] == key[1..] + ("=" + value);
      EqualsAfter(key[1..], value);
    }
  }

  lemma BlankHasNoEquals(s: string)
    requires Blank(s)
    ensures Without(s, '=')
  {
  }

  lemma GivenBinding(item: string, name: string, value: string)
    requires ItemName(name) && Gives(item, name, value)
    ensures GoodItem(item) && BindingOf(item) == Binding(name, value)
  {
    hide StripLeft, StripRight, IsSpace, FirstEquals;
    var pre, post :| Blank(pre) && Blank(post) && item == pre + name + post + ("=" + value);
    var key := pre + name + post;
    BlankHasNoEquals(pre);
    BlankHasNoEquals(post);
    EqualsAfter(key, value);
    StripOfBlank(pre, name, post);
    assert item[..|key|] == key && item[|key| + 1..] == value;
  }

  lemma {:induction false} FirstEqualsSplits(item: string)
    ensures var n := FirstEquals(item);
            n < |item| ==> item == item[..n] + ("=" + item[n + 1..])
    decreases |item|
  {
    if item != "" && item[0] != '=' {
      FirstEqualsSplits(item[1..]);
    }
  }

  lemma {:induction false} StripLeftLeaves(s: string) returns (pre: string)
    ensures Blank(pre) && s == pre + StripLeft(s)
    decreases |s|
  {
    hide IsSpace;
    pre := "";
    if s != "" && IsSpace(s[0]) {
      pre := StripLeftLeaves(s[1..]);
      pre := [s[0]] + pre;
    }
  }

  lemma {:induction false} StripRightLeaves(s: string) returns (post: string)
    ensures Blank(post) && s == StripRight(s) + post
    decreases |s|
  {
    hide IsSpace;
    post := "";
    if s != "" && IsSpace(s[|s| - 1]) {
      post := StripRightLeaves(s[..|s| - 1]);
      post := post + [s[|s| - 1]];
    }
  }

  lemma BindingGiven(item: string)
    requires GoodItem(item)
    ensures Gives(item, BindingOf(item).key, BindingOf(item).value)
  {
    hide StripLeft, StripRight, IsSpace, FirstEquals;
    var n := FirstEquals(item);
    FirstEqualsSplits(item);
    var pre := StripLeftLeaves(item[..n]);
    var post := StripRightLeaves(StripLeft(item[..n]));
    assert item[..n] == pre + KeyOf(item) + post;
  }

  // ---- conditions ----

  /** Some item names the variable, and the last one that does gives it none of the values that count as false. */
  ghost predicate SetTrue(raw: seq<string>, name: string) {
    exists i, value | 0 <= i < |raw| ::
      && Gives(raw[i], name, value)
      && value != "" && value != "0" && value != "false" && value != "False" && value != "no" && value != "No"
      && forall j | i < j < |raw| :: !Names(raw[j], name)
  }

  lemma KeyIsNamed(item: string, name: string)
    requires ItemName(name) && GoodItem(item)
    ensures Names(item, name) <==> BindingOf(item).key == name
  {
    hide GoodItem, BindingOf, ItemName, Gives;
    BindingGiven(item);
    if Names(item, name) {
      var value :| Gives(item, name, value);
      GivenBinding(item, name, value);
    }
  }

  lemma SetTrueIsLookup(raw: seq<string>, name: string)
    requires ItemName(name) && forall i | 0 <= i < |raw| :: GoodItem(raw[i])
    ensures SetTrue(raw, name)
       <==> (Lookup(Bindings(raw), name).Some? && Truthy(Lookup(Bindings(raw), name).value))
  {
    hide GoodItem, BindingOf, ItemName, Gives, Names, Lookup, Bindings;
    forall i | 0 <= i < |raw| ensures Names(raw[i], name) <==> BindingOf(raw[i]).key == name {
      KeyIsNamed(raw[i], name);
    }
    if SetTrue(raw, name) {
      var i, value :| 0 <= i < |raw| && Gives(raw[i], name, value)
        && value != "" && value != "0" && value != "false" && value != "False" && value != "no" && value != "No"
        && forall j | i < j < |raw| :: !Names(raw[j], name);
      GivenBinding(raw[i], name, value);
      LastItemWins(raw, name, value);
    }
    if Lookup(Bindings(raw), name).Some? {
      var value := Lookup(Bindings(raw), name).value;
      LastItemWins(raw, name, value);
      var i :| 0 <= i < |raw| && BindingOf(raw[i]) == Binding(name, value)
        && forall j | i < j < |raw| :: BindingOf(raw[j]).key != name;
      BindingGiven(raw[i]);
    }
  }

  // ---- one block with an else part ----

  function PlainLines(lines: seq<string>): Forest {
    if lines == [] then Nil else Line(lines[0], PlainLines(lines[1..]))
  }

  predicate AllPlain(lines: seq<string>) {
    forall line | line in lines :: KindOf(line) == Plain
  }

  function SubstituteAll(lines: seq<string>, vars: seq<Binding>): seq<string> {
    if lines == [] then [] else [Substitute(lines[0], vars)] + SubstituteAll(lines[1..], vars)
  }

  lemma {:induction false} PlainMeaning(lines: seq<string>, vars: seq<Binding>)
    requires AllPlain(lines)
    ensures WellFormed(PlainLines(lines)) && Lines(PlainLines(lines)) == lines
    ensures Meaning(PlainLines(lines), vars) == SubstituteAll(lines, vars)
  {
    hide KindOf, Substitute;
    if lines != [] {
      assert lines[0] in lines && forall l | l in lines[1..] :: l in lines;
      PlainMeaning(lines[1..], vars);
      assert lines == [lines[0]] + lines[1..];
    }
  }

  /** A block on one variable, negated or not, with an else part. */
  function LinesOfBlock(pre: string, name: string, negated: bool, post: string, first: seq<string>,
                       second: seq<string>): seq<string>
  {
    [OpeningLine(pre, name, negated, post)] + first + ["@else@"] + second + ["@endif@"]
  }

  function OpeningLine(pre: string, name: string, negated: bool, post: string): string {
    pre + ((if negated then "@if !" else "@if ") + name + "@") + post
  }

  lemma KindOfOpening(pre: string, name: string, negated: bool, post: string)
    requires PlainName(name) && Blank(pre) && Blank(post)
    ensures KindOf(OpeningLine(pre, name, negated, post)) == Opens(name, negated)
  {
    hide KindOf;
    DirectivesAreRead(pre, name, post);
  }

  lemma KindOfMarks()
    ensures KindOf("@else@") == Else && KindOf("@endif@") == Endif
  {
    hide KindOf;
    DirectivesAreRead("", "x", "");
    assert "" + "@else@" + "" == "@else@" && "" + "@endif@" + "" == "@endif@";
  }

  lemma HoldsExactly(name: string, negated: bool, vars: seq<Binding>)
    ensures var v := Lookup(vars, name);
            var on := v.Some? && Truthy(v.value);
            Holds(Opens(name, negated), vars) <==> on != negated
  {
    hide Truthy;
    EmptyIsFalse();
  }

  lemma StructureOfBlock(open: string, first: seq<string>, second: seq<string>, vars: seq<Binding>) returns (f: Forest)
    requires KindOf(open).Opens? && AllPlain(first) && AllPlain(second)
    ensures WellFormed(f) && Lines(f) == [open] + first + ["@else@"] + second + ["@endif@"]
    ensures Meaning(f, vars) == SubstituteAll(if Holds(KindOf(open), vars) then first else second, vars)
  {
    hide KindOf, Holds, AllPlain, SubstituteAll, PlainLines;
    KindOfMarks();
    PlainMeaning(first, vars);
    PlainMeaning(second, vars);
    var elses := ElsePart("@else@", PlainLines(second), NoElse);
    assert ElseLines(elses) == ["@else@"] + second;
    assert forall on :: ElseMeaning(elses, vars, on) == if on then SubstituteAll(second, vars) else [];
    f := If(open, PlainLines(first), elses, "@endif@", Nil);
  }

  lemma MeaningOfBlock(pre: string, name: string, negated: bool, post: string, first: seq<string>,
                       second: seq<string>, vars: seq<Binding>) returns (f: Forest)
    requires PlainName(name) && Blank(pre) && Blank(post) && AllPlain(first) && AllPlain(second)
    ensures WellFormed(f) && Lines(f) == LinesOfBlock(pre, name, negated, post, first, second)
    ensures var v := Lookup(vars, name);
            var on := v.Some? && Truthy(v.value);
            Meaning(f, vars) == SubstituteAll(if on != negated then first else second, vars)
  {
    hide KindOf, Holds, Lookup, Truthy, SubstituteAll, AllPlain, Lines, WellFormed, OpeningLine;
    KindOfOpening(pre, name, negated, post);
    HoldsExactly(name, negated, vars);
    f := StructureOfBlock(OpeningLine(pre, name, negated, post), first, second, vars);
  }

  lemma EmptyIsFalse()
    ensures !Truthy("")
  {
  }

  /**
   From the items of the command line to the output: the first part of the block is rendered exactly if the variable
   was set to something true, and with a negation exactly if it was not; otherwise the else part is.
   */
  method RenderOneBlock(raw: seq<string>, pre: string, name: string, negated: bool, post: string, first: seq<string>,
                        second: seq<string>) returns (bad: Option<nat>, r: Result)
    requires ItemName(name) && Blank(pre) && Blank(post) && AllPlain(first) && AllPlain(second)
    ensures bad == None <==> forall i | 0 <= i < |raw| :: GoodItem(raw[i])
    ensures bad == None ==>
              r == Rendered(SubstituteAll(if SetTrue(raw, name) != negated then first else second, Bindings(raw)))
  {
    hide GoodItem, Lookup, Bindings, SetTrue, WellFormed, Lines, Meaning, SubstituteAll, Truthy;
    var vars;
    vars, bad := ParseVars(raw);
    r := Refused(Unclosed);
    if bad == None {
      SetTrueIsLookup(raw, name);
      ghost var f := MeaningOfBlock(pre, name, negated, post, first, second, vars);
      r := Render(LinesOfBlock(pre, name, negated, post, first, second), vars);
    }
  }
}
