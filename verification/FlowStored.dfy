/** The flows that the parser stores, and that they survive being printed. */
module FlowStored {
  import opened Wrappers
  import opened FlowText
  import opened FlowSplit

  // ---- closing brackets, counted along a text ------------------------------------------

  /** The brackets open after a text; None when it has a comma outside all brackets, or closes
      a bracket that is not open. */
  function Scan(s: string, parens: nat, braces: nat): Option<(nat, nat)> {
    if s == "" then Some((parens, braces))
    else match s[0]
      case ',' => if parens == 0 && braces == 0 then None else Scan(s[1..], parens, braces)
      case '(' => Scan(s[1..], parens + 1, braces)
      case '[' => Scan(s[1..], parens, braces + 1)
      case ')' => if parens == 0 then None else Scan(s[1..], parens - 1, braces)
      case ']' => if braces == 0 then None else Scan(s[1..], parens, braces - 1)
      case _ => Scan(s[1..], parens, braces)
  }

  lemma {:induction false} ScanIsCut(s: string, i: nat, parens: nat, braces: nat)
    requires i <= |s|
    ensures var c, r := FindCut(s, i, parens, braces), Scan(s[i..], parens, braces);
            if r.Some? then c == End(r.value.0, r.value.1) else !c.End?
    decreases |s| - i
  {
    if i < |s| {
      assert s[i..][0] == s[i] && s[i..][1..] == s[i + 1..];
      match s[i]
      case ',' => ScanIsCut(s, i + 1, parens, braces);
      case '(' => ScanIsCut(s, i + 1, parens + 1, braces);
      case '[' => ScanIsCut(s, i + 1, parens, braces + 1);
      case ')' => if parens > 0 { ScanIsCut(s, i + 1, parens - 1, braces); }
      case ']' => if braces > 0 { ScanIsCut(s, i + 1, parens, braces - 1); }
      case _ => ScanIsCut(s, i + 1, parens, braces);
    }
  }

  lemma ClosedIsScan(s: string)
    ensures Closed(s) <==> Scan(s, 0, 0) == Some((0, 0))
  {
    hide FindCut, Scan;
    ScanIsCut(s, 0, 0, 0);
    assert s[0..] == s;
  }

  lemma {:induction false} ScanConcat(s: string, t: string, parens: nat, braces: nat)
    ensures var r := Scan(s, parens, braces);
            Scan(s + t, parens, braces) == if r.None? then None else Scan(t, r.value.0, r.value.1)
    decreases |s|
  {
    if s == "" {
      assert s + t == t;
    } else {
      assert (s + t)[0] == s[0] && (s + t)[1..] == s[1..] + t;
      match s[0]
      case '(' => ScanConcat(s[1..], t, parens + 1, braces);
      case '[' => ScanConcat(s[1..], t, parens, braces + 1);
      case ')' => if parens > 0 { ScanConcat(s[1..], t, parens - 1, braces); }
      case ']' => if braces > 0 { ScanConcat(s[1..], t, parens, braces - 1); }
      case _ => ScanConcat(s[1..], t, parens, braces);
    }
  }

  ghost predicate NoTokens(p: char -> bool) {
    forall c :: p(c) ==> !IsToken(c)
  }

  lemma {:induction false} ScanTrimLeft(s: string, p: char -> bool, parens: nat, braces: nat)
    requires NoTokens(p)
    ensures Scan(TrimLeft(s, p), parens, braces) == Scan(s, parens, braces)
    decreases |s|
  {
    if s != "" && p(s[0]) {
      assert !IsToken(s[0]);
      ScanTrimLeft(s[1..], p, parens, braces);
    }
  }

  lemma {:induction false} ScanTrimRight(s: string, p: char -> bool, parens: nat, braces: nat)
    requires NoTokens(p)
    ensures Scan(TrimRight(s, p), parens, braces) == Scan(s, parens, braces)
    decreases |s|
  {
    if s != "" && p(s[|s| - 1]) {
      var init, last := s[..|s| - 1], s[|s| - 1];
      assert !IsToken(last) && s == init + [last];
      ScanTrimRight(init, p, parens, braces);
      ScanConcat(init, [last], parens, braces);
      forall x: nat, y: nat ensures Scan([last], x, y) == Some((x, y)) { OneScan(last, x, y); }
    }
  }

  lemma OneScan(c: char, parens: nat, braces: nat)
    requires !IsToken(c)
    ensures Scan([c], parens, braces) == Some((parens, braces))
  {
    assert [c][1..] == "";
  }

  lemma ScanTrim(s: string, p: char -> bool, parens: nat, braces: nat)
    requires NoTokens(p)
    ensures Scan(Trim(s, p), parens, braces) == Scan(s, parens, braces)
  {
    hide Scan;
    ScanTrimLeft(s, p, parens, braces);
    ScanTrimRight(TrimLeft(s, p), p, parens, braces);
  }

  lemma BlanksAreNoTokens()
    ensures NoTokens(IsSpace) && NoTokens(IsColonOrBlank)
  {
  }

  // ---- trimming --------------------------------------------------------------------------

  predicate IsVisible(c: char) {
    !IsSpace(c)
  }

  predicate IsSolid(c: char) {
    !IsColonOrBlank(c)
  }

  /** Trimming leaves a clean part of the text. */
  lemma {:induction false} TrimLeftIs(s: string, p: char -> bool)
    ensures var r := TrimLeft(s, p); (r == "" || !p(r[0])) && forall c | c in r :: c in s
    decreases |s|
  {
    if s != "" && p(s[0]) { TrimLeftIs(s[1..], p); }
  }

  lemma {:induction false} TrimRightIs(s: string, p: char -> bool)
    ensures var r := TrimRight(s, p); (r == "" || !p(r[|r| - 1])) && r <= s
    decreases |s|
  {
    if s != "" && p(s[|s| - 1]) { TrimRightIs(s[..|s| - 1], p); }
  }

  lemma TrimIs(s: string, p: char -> bool)
    ensures Clean(Trim(s, p), p) && forall c | c in Trim(s, p) :: c in s
  {
    TrimLeftIs(s, p);
    TrimRightIs(TrimLeft(s, p), p);
  }

  /** What is left of a text with a character to keep starts with the first such character. */
  lemma {:induction false} TrimStarts(s: string, drop: char -> bool, keep: char -> bool)
    requires IndexOf(s, keep) < |s| && forall c :: keep(c) <==> !drop(c)
    ensures Trim(s, drop) != "" && Trim(s, drop)[0] == s[IndexOf(s, keep)]
    decreases |s|
  {
    if drop(s[0]) {
      TrimStarts(s[1..], drop, keep);
    } else {
      TrimRightKeeps(s, drop, 0);
      TrimRightIs(s, drop);
    }
  }

  // ---- actions -----------------------------------------------------------------------------

  /** The text starts, after blanks, with a character that is no bracket or comma; if that is
      a colon, the same holds after the colons and blanks that follow. */
  ghost predicate Headed(s: string) {
    var m := IndexOf(s, IsVisible);
    m < |s| && !IsToken(s[m]) && (s[m] == ':' ==> Valued(s[m..]))
  }

  ghost predicate Valued(s: string) {
    var n := IndexOf(s, IsSolid);
    n < |s| && !IsToken(s[n])
  }

  /** A closed and headed text makes an action that can be printed. */
  lemma ActionIsPlain(t: string)
    requires Closed(t) && Headed(t) && ActionToOvsField(t).Ok?
    ensures Plain(ActionToOvsField(t).value)
  {
    hide FindCut, Scan, IndexOf, Trim, IsSpace, Closed, Headed;
    var a, k := ActionToOvsField(t).value, IndexOf(t, StartsValue);
    NameIs(t, k);
    ClosedIsScan(t);
    ClosedIsScan(Text(a));
    BlanksAreNoTokens();
    ScanTrim(t[..k], IsSpace, 0, 0);
    assert t == t[..k] + t[k..];
    ScanConcat(t[..k], t[k..], 0, 0);
    var r := Scan(a.name, 0, 0);
    if k == |t| {
      assert t[..k] == t;
    } else {
      TrimIs(t[k..], IsColonOrBlank);
      ScanTrim(t[k..], IsColonOrBlank, r.value.0, r.value.1);
      TextScan(a);
    }
  }

  /** The name of an action is the trimmed text before its value; without a name there is
      a value that starts with neither bracket nor comma. */
  lemma NameIs(t: string, k: nat)
    requires Headed(t) && k == IndexOf(t, StartsValue)
    ensures k <= |t|
    ensures var name := Trim(t[..k], IsSpace);
            && Clean(name, IsSpace) && (forall c | c in name :: !StartsValue(c))
            && (name != "" ==> name[0] != ',' && !IsBracket(name[0]))
            && (name == "" ==> k < |t| && var value := Trim(t[k..], IsColonOrBlank); value != "" && !IsToken(value[0]))
  {
    hide Trim, IsSpace;
    var m := IndexOf(t, IsVisible);
    assert k < |t| ==> IsVisible(t[k]) by { ValueStartsVisible(); }
    assert m <= k && t[..k][..m] == t[..m];
    TrimIs(t[..k], IsSpace);
    assert forall c | c in t[..k] :: !StartsValue(c);
    if m < k {
      IndexIs(t[..k], IsVisible, m);
      TrimStarts(t[..k], IsSpace, IsVisible);
    } else {
      NothingVisible(t[..k]);
      ColonStarts(t, k);
    }
  }

  lemma NothingVisible(s: string)
    requires forall c | c in s :: IsSpace(c)
    ensures Trim(s, IsSpace) == ""
  {
    hide IsSpace;
    TrimIs(s, IsSpace);
    var r := Trim(s, IsSpace);
    assert forall i | 0 <= i < |r| :: r[i] in r;
  }

  lemma ColonStarts(t: string, k: nat)
    requires Headed(t) && k == IndexOf(t, StartsValue) == IndexOf(t, IsVisible)
    ensures k < |t| && var value := Trim(t[k..], IsColonOrBlank); value != "" && !IsToken(value[0])
  {
    hide Trim, IsSpace;
    assert t[k] == ':';
    TrimStarts(t[k..], IsColonOrBlank, IsSolid);
  }

  lemma ValueStartsVisible()
    ensures IsVisible(':') && IsVisible('(')
  {
  }

  /** Printing puts nothing between name and value that brackets care about. */
  lemma TextScan(a: OvsField)
    requires Scan(a.name, 0, 0).Some?
    ensures var r := Scan(a.name, 0, 0).value; Scan(Text(a), 0, 0) == Scan(a.value, r.0, r.1)
  {
    var r := Scan(a.name, 0, 0).value;
    if a.value == "" {
    } else if a.value[0] != '(' {
      assert a.name + ":" + a.value == a.name + (":" + a.value);
      ScanConcat(a.name, ":" + a.value, 0, 0);
      ScanConcat(":", a.value, r.0, r.1);
      OneScan(':', r.0, r.1);
    } else {
      ScanConcat(a.name, a.value, 0, 0);
    }
  }

  /** An action starts at the beginning, and behind every comma outside all brackets. */
  ghost predicate Starts(s: string, i: nat) {
    i < |s| && (i == 0 || (s[i - 1] == ',' && Outside(s, i - 1)))
  }

  /** Every action of the text is headed. */
  ghost predicate TidyActions(s: string) {
    forall i: nat {:trigger Starts(s, i)} | Starts(s, i) :: Headed(s[i..])
  }

  lemma HeadedIsNoToken(s: string)
    requires Headed(s)
    ensures !IsToken(s[0])
  {
    hide IsSpace;
    var m := IndexOf(s, IsVisible);
    if m > 0 {
      assert !IsVisible(s[0]);
      BlanksAreNoTokens();
    }
  }

  lemma TidyIsSeparated(s: string)
    requires TidyActions(s)
    ensures Separated(s)
  {
    hide Headed, Outside, IsToken;
    forall i | 0 <= i && i + 1 < |s| && s[i] == ',' && Outside(s, i) ensures !IsToken(s[i + 1]) {
      assert Starts(s, i + 1);
      HeadedIsNoToken(s[i + 1..]);
    }
  }

  /** After a cut the rest is tidy. */
  lemma TidyRest(s: string, i: nat)
    requires TidyActions(s) && FindCut(s, 0, 0, 0) == At(i) && i < |s| && s[i] == ','
    ensures TidyActions(s[i + 1..])
  {
    hide FindCut, Headed, Outside;
    CutOutside(s, i);
    var rest := s[i + 1..];
    forall j: nat | Starts(rest, j) ensures Headed(rest[j..]) {
      if j > 0 {
        OutsideRest(s, i, j - 1);
      }
      assert Starts(s, i + 1 + j);
      assert s[i + 1 + j..] == rest[j..];
    }
  }

  /** What stands before a cut is closed and headed. */
  lemma CutPart(s: string, i: nat)
    requires Headed(s) && FindCut(s, 0, 0, 0) == At(i) && i < |s| && s[i] == ','
    ensures Closed(s[..i]) && Headed(s[..i])
  {
    hide FindCut, Headed;
    PartIsClosed(s, 0, 0, 0, i);
    PartIsHeaded(s, i);
  }

  lemma PartIsHeaded(s: string, i: nat)
    requires Headed(s) && i < |s| && s[i] == ','
    ensures Headed(s[..i])
  {
    hide IsSpace, IsBracket;
    CommaIsVisible();
    var m := IndexOf(s, IsVisible);
    assert m != i && !(i < m);
    IndexIs(s[..i], IsVisible, m);
    if s[m] == ':' {
      var n := IndexOf(s[m..], IsSolid);
      assert s[m..][i - m] == ',' && n < i - m;
      assert s[..i][m..] == s[m..][..i - m];
      IndexIs(s[..i][m..], IsSolid, n);
    }
  }

  lemma CommaIsVisible()
    ensures IsVisible(',') && IsToken(',')
  {
  }

  lemma {:induction false} PartIsClosed(s: string, j: nat, parens: nat, braces: nat, i: nat)
    requires j <= i < |s| && FindCut(s, j, parens, braces) == At(i)
    ensures FindCut(s[..i], j, parens, braces) == End(0, 0)
    decreases i - j
  {
    if j < i {
      assert s[..i][j] == s[j];
      match s[j]
      case '(' => PartIsClosed(s, j + 1, parens + 1, braces, i);
      case '[' => PartIsClosed(s, j + 1, parens, braces + 1, i);
      case ')' => PartIsClosed(s, j + 1, parens - 1, braces, i);
      case ']' => PartIsClosed(s, j + 1, parens, braces - 1, i);
      case _ => PartIsClosed(s, j + 1, parens, braces, i);
    } else {
      CutStep(s, j, parens, braces);
      CutIsOutsideHere(s, j, parens, braces);
    }
  }

  lemma CutIsOutsideHere(s: string, j: nat, parens: nat, braces: nat)
    requires j < |s| && FindCut(s, j, parens, braces) == At(j)
    ensures parens == 0 && braces == 0
  {
    hide FindCut;
    CutIsOutside(s, j, parens, braces);
    assert s[j..j] == "";
  }

  /** The actions of a tidy text can all be printed. */
  lemma {:induction false} TidyIsPlain(s: string)
    requires TidyActions(s) && ProperSplit(s).Ok?
    ensures ProperSplit(s).value != [] && forall a | a in ProperSplit(s).value :: Plain(a)
    decreases |s|
  {
    hide FindCut, ActionToOvsField, Plain, TidyActions, Headed;
    CutIsComma(s, 0, 0, 0);
    FirstHeaded(s);
    match FindCut(s, 0, 0, 0)
    case End(_, _) => ActionIsPlain(s);
    case At(i) =>
      CutPart(s, i);
      ActionIsPlain(s[..i]);
      if s[i + 1..] != "" {
        TidyRest(s, i);
        TidyIsPlain(s[i + 1..]);
      }
  }

  lemma FirstHeaded(s: string)
    requires TidyActions(s) && ProperSplit(s).Ok?
    ensures Headed(s)
  {
    hide FindCut, Headed;
    if s == "" {
      NoActionsNoSplit();
    } else {
      assert Starts(s, 0);
      assert s[0..] == s;
    }
  }

  lemma NoActionsNoSplit()
    ensures ProperSplit("").Err?
  {
  }

  // ---- flows --------------------------------------------------------------------------------

  /** Every field of the text has a name, and its actions are tidy. */
  ghost predicate Tidy(flow: string)
    decreases |flow|
  {
    flow != "" && FirstItem(flow).Ok? ==>
      var item := FirstItem(flow).value;
      NextIsShorter(flow);
      item.name != "" && (item.name == "actions" ==> TidyActions(item.value)) && Tidy(item.next)
  }

  /** What a partly parsed flow has can be printed. */
  ghost predicate SoFar(f: OvsFlow) {
    && -1 <= f.table <= 255 && -1 <= f.priority <= 65535 && IsWord(f.cookie)
    && (forall x | x in f.fields :: IsName(x.name) && IsWord(x.value) && !Reserved(x.name))
    && (forall a | a in f.actions :: Plain(a))
  }

  /** Names and values of fields hold no separators, and names no equals sign. */
  lemma ItemIsWords(flow: string)
    requires FirstItem(flow).Ok?
    ensures var item := FirstItem(flow).value;
            IsWord(item.name) && (forall c | c in item.name ::
                !IsEquals(c)) && (item.name != "actions" ==> IsWord(item.value))
  {
    hide TrimLeft, TrimRight;
    var end, eq := IndexOf(flow, IsSep), IndexOf(flow, IsEquals);
    if eq == |flow| || eq > end {
      assert forall c | c in flow[..end] :: !IsSep(c) && !IsEquals(c);
    } else {
      EqualsBeforeEnd(flow, end, eq);
      assert forall c | c in flow[..eq] :: !IsSep(c) && !IsEquals(c);
      TrimIs(flow[eq + 1..end], IsSep);
    }
  }

  lemma FieldKeeps(f: OvsFlow, item: Item)
    requires SoFar(f) && SetField(f, item.name, item.value).Ok?
    requires item.name != "" && IsWord(item.name) && (forall c | c in item.name :: !IsEquals(c))
    requires if item.name == "actions" then TidyActions(item.value) else IsWord(item.value)
    ensures SoFar(SetField(f, item.name, item.value).value)
  {
    hide Plain, Atoi, SplitActions, TidyActions;
    if item.name == "actions" && item.value != "" {
      TidyIsSeparated(item.value);
      SeparatedIsSplitProperly(item.value);
      TidyIsPlain(item.value);
    }
  }

  lemma {:induction false} ParsedSoFar(flow: string, f: OvsFlow)
    requires Tidy(flow) && SoFar(f) && ParseFrom(flow, f).Ok?
    ensures SoFar(ParseFrom(flow, f).value)
    decreases |flow|
  {
    hide SoFar, FirstItem, SetField, TidyActions;
    if flow != "" {
      var item := FirstItem(flow).value;
      NextIsShorter(flow);
      ItemIsWords(flow);
      FieldKeeps(f, item);
      ParsedSoFar(item.next, SetField(f, item.name, item.value).value);
    }
  }

  /** A tidy text that parses for adding gives a flow that can be printed. */
  lemma ParsedIsPrintable(text: string)
    requires Tidy(Trim(text, IsBlank)) && Parse(ForAdd, text).Ok?
    ensures Printable(Parse(ForAdd, text).value)
  {
    hide Plain, Tidy, ParseFrom, Trim;
    NothingSoFar();
    ParsedSoFar(Trim(text, IsBlank), NoFlow);
    var g, f := ParseFrom(Trim(text, IsBlank), NoFlow).value, Parse(ForAdd, text).value;
    SameFields(g, f);
  }

  lemma NothingSoFar()
    ensures SoFar(NoFlow)
  {
  }

  // ---- stored flows ------------------------------------------------------------------------

  function FixedName(name: string): string {
    if name == "nw_src" then "arp_spa" else if name == "nw_dst" then "arp_tpa" else name
  }

  /** The names an ARP flow's addresses are dumped under. */
  function FixFlowFields(f: OvsFlow): OvsFlow {
    if FieldSet(f, "arp")
    then f.(fields := seq(|f.fields|, i requires 0 <= i < |f.fields| =>
                            OvsField(FixedName(f.fields[i].name), f.fields[i].value)))
    else f
  }

  /** In an ARP flow the source address is then under arp_spa and the destination under
      arp_tpa; nothing else changes. */
  method FixFields(f: OvsFlow) returns (g: OvsFlow)
    ensures g == FixFlowFields(f) && g == f.(fields := g.fields) && |g.fields| == |f.fields|
    ensures !FieldSet(f, "arp") ==> g == f
    ensures forall i | 0 <= i < |f.fields| && FieldSet(f, "arp") ::
              && g.fields[i].value == f.fields[i].value
              && (f.fields[i].name == "nw_src" ==> g.fields[i].name == "arp_spa")
              && (f.fields[i].name == "nw_dst" ==> g.fields[i].name == "arp_tpa")
              && (f.fields[i].name !in {"nw_src", "nw_dst"} ==> g.fields[i] == f.fields[i])
  {
    g := f;
    if FieldSet(f, "arp") {
      for i := 0 to |f.fields|
        invariant |g.fields| == |f.fields| && g == f.(fields := g.fields)
        invariant forall j | 0 <= j < i :: g.fields[j] == OvsField(FixedName(f.fields[j].name), f.fields[j].value)
        invariant forall j | i <= j < |f.fields| :: g.fields[j] == f.fields[j]
      {
        if g.fields[i].name == "nw_src" {
          g := g.(fields := g.fields[i := g.fields[i].(name := "arp_spa")]);
        } else if g.fields[i].name == "nw_dst" {
          g := g.(fields := g.fields[i := g.fields[i].(name := "arp_tpa")]);
        }
      }
    }
  }

  lemma FixedHas(f: OvsFlow, name: string)
    requires FieldSet(f, "arp") && name !in {"nw_src", "nw_dst", "arp_spa", "arp_tpa"}
    ensures FieldSet(FixFlowFields(f), name) <==> FieldSet(f, name)
  {
    var g := FixFlowFields(f);
    assert forall i | 0 <= i < |f.fields| :: g.fields[i].name == FixedName(f.fields[i].name);
  }

  lemma FixedIsConsistent(f: OvsFlow)
    requires Consistent(f)
    ensures Consistent(FixFlowFields(f))
  {
    hide FieldSet, FixFlowFields;
    if FieldSet(f, "arp") {
      var g := FixFlowFields(f);
      forall name | name !in {"nw_src", "nw_dst", "arp_spa", "arp_tpa"}
        ensures FieldSet(g, name) <==> FieldSet(f, name)
      {
        FixedHas(f, name);
      }
    } else {
      NotFixed(f);
    }
  }

  lemma NotFixed(f: OvsFlow)
    requires !FieldSet(f, "arp")
    ensures FixFlowFields(f) == f
  {
  }

  lemma FixedIsPrintable(f: OvsFlow)
    requires Printable(f)
    ensures Printable(FixFlowFields(f))
  {
    hide Plain, Consistent;
    FixedIsConsistent(f);
    var g := FixFlowFields(f);
    if FieldSet(f, "arp") {
      FixedHas(f, "out_port");
      FixedHas(f, "out_group");
      forall x | x in g.fields ensures IsName(x.name) && IsWord(x.value) && !Reserved(x.name) {
        var i :| 0 <= i < |g.fields| && g.fields[i] == x;
        assert f.fields[i] in f.fields;
        FixedNameIsName(f.fields[i].name);
      }
    }
  }

  lemma FixedNameIsName(name: string)
    requires IsName(name) && !Reserved(name)
    ensures IsName(FixedName(name)) && !Reserved(FixedName(name))
  {
  }

  /** What is stored for a tidy text is read back from its own dump, and stored the same again. */
  lemma StoredRoundTrip(text: string)
    requires Tidy(Trim(text, IsBlank)) && Parse(ForAdd, text).Ok?
    ensures var f := FixFlowFields(Parse(ForAdd, text).value);
            Printable(f) && Parse(ForAdd, Print(f)) == Ok(f) && FixFlowFields(f) == f
  {
    hide Plain, Tidy, Parse, Print, Consistent;
    ParsedIsPrintable(text);
    var g := Parse(ForAdd, text).value;
    FixedIsPrintable(g);
    RoundTrip(FixFlowFields(g));
    FixedAgain(g);
  }

  lemma FixedAgain(f: OvsFlow)
    ensures FixFlowFields(FixFlowFields(f)) == FixFlowFields(f)
  {
    var g := FixFlowFields(f);
    if FieldSet(g, "arp") && FieldSet(f, "arp") {
      assert FixFlowFields(g).fields == g.fields;
    }
  }
}
