/** What the parser makes of a text that lists items: for each purpose, which lists
    are refused and what the others are read as. */
module FlowRows {
  import opened Wrappers
  import opened FlowText

  // ---- numbers -----------------------------------------------------------------------------

  lemma {:induction false} ValueOfDigits(s: string)
    ensures Value(s).Some? <==> s != "" && forall c | c in s :: IsDigit(c)
    decreases |s|
  {
    if s != "" {
      var c, init := s[|s| - 1], s[..|s| - 1];
      ValueOfDigits(init);
      assert s == init + [c];
    }
  }

  function Zeros(k: nat): string {
    seq(k, i => '0')
  }

  lemma {:induction false} ZerosValue(k: nat)
    ensures k > 0 ==> Value(Zeros(k)) == Some(0)
  {
    if k > 0 {
      ZerosValue(k - 1);
      assert Zeros(k)[..k - 1] == Zeros(k - 1);
    }
  }

  lemma ValueSnoc(init: string, c: char)
    requires IsDigit(c) && Value(init).Some?
    ensures Value(init + [c]) == Some(10 * Value(init).value + DigitValue(c))
  {
    assert (init + [c])[..|init|] == init;
  }

  lemma {:induction false} PaddedValue(k: nat, n: nat)
    ensures Value(Zeros(k) + Decimal(n)) == Some(n)
    decreases n
  {
    hide Value, Zeros;
    if n < 10 {
      if k > 0 {
        ZerosValue(k);
        ValueSnoc(Zeros(k), Digit(n));
      } else {
        NoZeros();
        assert "" + Decimal(n) == Decimal(n);
        DecimalValue(n);
      }
      assert DigitValue(Digit(n)) == n;
    } else {
      PaddedValue(k, n / 10);
      ValueSnoc(Zeros(k) + Decimal(n / 10), Digit(n % 10));
      assert Zeros(k) + Decimal(n) == (Zeros(k) + Decimal(n / 10)) + [Digit(n % 10)];
      assert DigitValue(Digit(n % 10)) == n % 10;
    }
  }

  lemma NoZeros()
    ensures Zeros(0) == ""
  {
  }

  /** Numbers may have leading zeros and a sign. */
  lemma AtoiReads(k: nat, n: nat)
    ensures var s := Zeros(k) + Decimal(n);
            Atoi(s) == Some(n as int) && Atoi("+" + s) == Some(n as int) && Atoi("-" + s) == Some(-(n as int))
  {
    hide Value, Decimal, Zeros;
    PaddedValue(k, n);
    var s := Zeros(k) + Decimal(n);
    ValueOfDigits(s);
    assert s[0] in s;
    assert ("+" + s)[1..] == s && ("-" + s)[1..] == s;
  }

  lemma AtoiRefuses(s: string)
    ensures var digits := if s != "" && s[0] in {'+', '-'} then s[1..] else s;
            Atoi(s).Some? <==> digits != "" && forall c | c in digits :: IsDigit(c)
  {
    hide Value;
    ValueOfDigits(if s != "" && s[0] in {'+', '-'} then s[1..] else s);
  }

  // ---- what a list of items says -------------------------------------------------------------

  /** The value the last item of that name gives. */
  function LastOf(items: seq<OvsField>, name: string): Option<string> {
    if items == [] then None
    else
      var x := items[|items| - 1];
      if x.name == name then Some(x.value) else LastOf(items[..|items| - 1], name)
  }

  /** The items that are fields of the flow, in their order. */
  function FieldItems(items: seq<OvsField>): seq<OvsField> {
    if items == [] then []
    else
      var x := items[|items| - 1];
      FieldItems(items[..|items| - 1]) + if x.name in {"table", "priority", "cookie"} then [] else [x]
  }

  predicate InRange(n: Option<int>, most: nat) {
    n.Some? && 0 <= n.value <= most
  }

  /** Every table and every priority is a number in its range. */
  ghost predicate GoodNumbers(items: seq<OvsField>) {
    forall x | x in items ::
      && (x.name == "table" ==> InRange(Atoi(x.value), 255))
      && (x.name == "priority" ==> InRange(Atoi(x.value), 65535))
  }

  function NumberOf(value: Option<string>, unset: int): int {
    match value
    case None => unset
    case Some(s) => match Atoi(s) case None => unset case Some(n) => n
  }

  /** The flow that the items describe, with the given values where nothing is said. */
  function FlowOf(items: seq<OvsField>, table: int, priority: int, cookie: string, actions: seq<OvsField>): OvsFlow {
    OvsFlow(NumberOf(LastOf(items, "table"), table), NumberOf(LastOf(items, "priority"), priority),
            match LastOf(items, "cookie") case None => cookie case Some(c) => c,
            FieldItems(items), actions)
  }

  lemma {:induction false} SetAllSnoc(f: OvsFlow, items: seq<OvsField>, x: OvsField)
    ensures SetAll(f, items + [x]) ==
              match SetAll(f, items) case Err(e) => Err(e) case Ok(g) => SetField(g, x.name, x.value)
    decreases |items|
  {
    hide SetField;
    if items == [] {
      assert items + [x] == [x] && [x][1..] == [];
    } else {
      assert (items + [x])[1..] == items[1..] + [x];
      var taken := SetField(f, items[0].name, items[0].value);
      if taken.Ok? { SetAllSnoc(taken.value, items[1..], x); }
    }
  }

  /** Taking over the items one by one gives the flow they describe, unless a number is bad. */
  lemma {:induction false} ItemsSay(items: seq<OvsField>)
    requires forall x | x in items :: x.name != "actions"
    ensures SetAll(NoFlow, items).Ok? <==> GoodNumbers(items)
    ensures GoodNumbers(items) ==> SetAll(NoFlow, items).value == FlowOf(items, -1, -1, "", [])
    decreases |items|
  {
    hide Atoi, SplitActions, SetAll;
    if items == [] {
      NoItems();
    } else {
      var init, x := items[..|items| - 1], items[|items| - 1];
      assert items == init + [x];
      ItemsSay(init);
      SetAllSnoc(NoFlow, init, x);
      assert FieldItems(init) + [] == FieldItems(init);
    }
  }

  lemma NoItems()
    ensures SetAll(NoFlow, []) == Ok(NoFlow)
  {
  }

  lemma {:induction false} FieldItemsAre(items: seq<OvsField>)
    ensures forall x :: x in FieldItems(items) <==> x in items && x.name !in {"table", "priority", "cookie"}
    decreases |items|
  {
    if items != [] {
      FieldItemsAre(items[..|items| - 1]);
      assert items == items[..|items| - 1] + [items[|items| - 1]];
    }
  }

  ghost predicate Given(items: seq<OvsField>, names: set<string>) {
    exists x :: x in items && x.name in names
  }

  lemma FieldIsGiven(f: OvsFlow, items: seq<OvsField>, names: set<string>)
    requires f.fields == FieldItems(items) && names !! {"table", "priority", "cookie"}
    ensures Given(items, names) <==> exists name :: name in names && FieldSet(f, name)
  {
    FieldItemsAre(items);
    if x :| x in items && x.name in names {
      assert x in f.fields;
      assert FieldSet(f, x.name);
    }
    if name :| name in names && FieldSet(f, name) {
      var i :| 0 <= i < |f.fields| && f.fields[i].name == name;
      assert f.fields[i] in items;
    }
  }

  /** Addresses come with a protocol that has them, ports with theirs, and fragments without ports. */
  ghost predicate Agreeing(items: seq<OvsField>) {
    && (Given(items, {"nw_src", "nw_dst"}) ==> Given(items, {"ip", "arp", "tcp", "udp"}))
    && (Given(items, {"arp_spa", "arp_tpa", "arp_sha", "arp_tha"}) ==> Given(items, {"arp"}))
    && (Given(items, {"tcp_src", "tcp_dst"}) ==> Given(items, {"tcp"}))
    && (Given(items, {"udp_src", "udp_dst"}) ==> Given(items, {"udp"}))
    && (Given(items, {"tp_src", "tp_dst"}) ==> Given(items, {"tcp", "udp"}))
    && (Given(items, {"ip_frag"}) ==> !Given(items, {"tcp", "udp"}))
  }

  lemma AgreeingIsConsistent(f: OvsFlow, items: seq<OvsField>)
    requires f.fields == FieldItems(items)
    ensures Consistent(f) <==> Agreeing(items)
  {
    hide FieldSet, Given, FieldItems;
    FieldIsGiven(f, items, {"nw_src", "nw_dst"});
    FieldIsGiven(f, items, {"ip", "arp", "tcp", "udp"});
    FieldIsGiven(f, items, {"arp_spa", "arp_tpa", "arp_sha", "arp_tha"});
    FieldIsGiven(f, items, {"arp"});
    FieldIsGiven(f, items, {"tcp_src", "tcp_dst"});
    FieldIsGiven(f, items, {"tcp"});
    FieldIsGiven(f, items, {"udp_src", "udp_dst"});
    FieldIsGiven(f, items, {"udp"});
    FieldIsGiven(f, items, {"tp_src", "tp_dst"});
    FieldIsGiven(f, items, {"tcp", "udp"});
    FieldIsGiven(f, items, {"ip_frag"});
  }

  // ---- texts of items --------------------------------------------------------------------------

  /** Items separated as the printer does. */
  function RowText(items: seq<OvsField>): string {
    if items == [] then "" else Row(items[..|items| - 1], FieldText(items[|items| - 1]))
  }

  ghost predicate AllReadable(items: seq<OvsField>) {
    forall x | x in items :: Readable(x)
  }

  lemma LoneItem(x: OvsField)
    requires Readable(x)
    ensures FieldText(x) != "" && !IsSep(FieldText(x)[0]) && !IsSep(FieldText(x)[|FieldText(x)| - 1])
    ensures FirstItem(FieldText(x)) == Ok(Item(x.name, x.value, ""))
  {
    hide IndexOf, TrimLeft, TrimRight, FieldText, Readable;
    var t := FieldText(x);
    FieldStarts(x);
    WordsJoin(x);
    assert forall j | 0 <= j < |t| :: t[j] in t;
    IndexIs(t, IsSep, |t|);
    assert t[|t|..] == "" && t[..|t|] == t;
    NothingToTrim();
    LoneEquals(x);
    if x.value != "" { WordIsClean(x); }
  }

  lemma LoneEquals(x: OvsField)
    requires Readable(x)
    ensures var t, eq := FieldText(x), IndexOf(FieldText(x), IsEquals);
            if x.value == "" then eq == |t| && t == x.name
            else eq == |x.name| < |t| && t[..eq] == x.name && t[eq + 1..|t|] == x.value
  {
    hide IndexOf, IsWord;
    var t := FieldText(x);
    assert forall j | 0 <= j < |x.name| :: t[j] == x.name[j] && x.name[j] in x.name;
    IndexIs(t, IsEquals, |x.name|);
  }

  lemma NothingToTrim()
    ensures TrimLeft("", IsSep) == ""
  {
  }

  lemma LoneParse(x: OvsField, f: OvsFlow)
    requires Readable(x)
    ensures ParseFrom(FieldText(x), f) == SetField(f, x.name, x.value)
  {
    hide FirstItem, SetField, FieldText;
    LoneItem(x);
    assert forall g :: ParseFrom("", g) == Ok(g);
  }

  lemma RowParses(items: seq<OvsField>)
    requires AllReadable(items)
    ensures ParseFrom(RowText(items), NoFlow) == SetAll(NoFlow, items)
    ensures Trim(RowText(items), IsBlank) == RowText(items)
  {
    hide SetField, FieldText, Row, SetAll, TrimLeft, TrimRight, ParseFrom, FirstItem, Readable;
    if items == [] {
      NoItems();
      NoBlanks();
    } else {
      var init, x := items[..|items| - 1], items[|items| - 1];
      assert items == init + [x];
      assert Readable(x) && forall y | y in init :: y in items;
      LoneItem(x);
      ParseRow(init, FieldText(x), NoFlow);
      if SetAll(NoFlow, init).Ok? { LoneParse(x, SetAll(NoFlow, init).value); }
      SetAllSnoc(NoFlow, init, x);
      RowEnds(init, FieldText(x));
      TrimClean(RowText(items), IsBlank);
    }
  }

  lemma NoBlanks()
    ensures Trim("", IsBlank) == "" && ParseFrom("", NoFlow) == Ok(NoFlow)
  {
  }

  /** What a text means as a filter: it is refused exactly for a bad number, an output port or
      group, a cookie without mask, or fields that do not agree; otherwise it is read as
      what it lists, with nothing filled in. */
  lemma FilterReads(items: seq<OvsField>)
    requires AllReadable(items)
    ensures var r, f := Parse(ForFilter, RowText(items)), FlowOf(items, -1, -1, "", []);
            && (r.Ok? <==>
                  && GoodNumbers(items) && !Given(items, {"out_port", "out_group"}) && Agreeing(items)
                  && (f.cookie != "" ==> '/' in f.cookie))
            && (r.Ok? ==> r.value == f)
  {
    hide SetAll, RowText, Trim, ParseFrom, FlowOf, Consistent, FieldSet, Given, GoodNumbers, Agreeing;
    Reads(items);
    var f := FlowOf(items, -1, -1, "", []);
    FlowOfIs(items, -1, -1, "", []);
    NeverPriority(f, items);
  }

  lemma Reads(items: seq<OvsField>)
    requires AllReadable(items)
    ensures ParseFrom(RowText(items), NoFlow).Ok? <==> GoodNumbers(items)
    ensures Trim(RowText(items), IsBlank) == RowText(items)
    ensures var f := FlowOf(items, -1, -1, "", []);
            && (GoodNumbers(items) ==> ParseFrom(RowText(items), NoFlow).value == f)
            && (Consistent(f) <==> Agreeing(items))
            && (FieldSet(f, "out_port") || FieldSet(f, "out_group") <==> Given(items, {"out_port", "out_group"}))
  {
    hide SetAll, RowText, Trim, ParseFrom, Consistent, FieldSet, Given, GoodNumbers, Agreeing, FieldItems, LastOf;
    RowParses(items);
    ItemsSay(items);
    var f := FlowOf(items, -1, -1, "", []);
    AgreeingIsConsistent(f, items);
    FieldIsGiven(f, items, {"out_port", "out_group"});
  }

  lemma FlowOfIs(items: seq<OvsField>, table: int, priority: int, cookie: string, actions: seq<OvsField>)
    ensures FlowOf(items, table, priority, cookie, actions).fields == FieldItems(items)
    ensures FlowOf(items, table, priority, cookie, actions).actions == actions
  {
  }

  /** A priority never becomes a field, so the refusal of the field "priority" never happens. */
  lemma NeverPriority(f: OvsFlow, items: seq<OvsField>)
    requires f.fields == FieldItems(items)
    ensures !FieldSet(f, "priority")
  {
    FieldItemsAre(items);
    assert forall i | 0 <= i < |f.fields| :: f.fields[i] in FieldItems(items);
  }

  /** A filter with a priority is accepted, although filters are not to have one. */
  lemma PriorityIsAccepted(n: nat)
    requires n <= 65535
    ensures Parse(ForFilter, RowText([OvsField("priority", Decimal(n))])) == Ok(OvsFlow(-1, n, "", [], []))
  {
    hide Parse, ParseFrom, Trim, RowText, Atoi, Decimal;
    var x := OvsField("priority", Decimal(n));
    var items := [x];
    PriorityIsReadable(n);
    assert items[..0] == [];
    AtoiDecimal(n);
    assert FieldItems(items) == [] + [];
    FilterReads(items);
    assert LastOf(items, "priority") == Some(Decimal(n)) && LastOf(items, "table") == LastOf(items, "cookie") == None;
  }

  lemma PriorityIsReadable(n: nat)
    ensures Readable(OvsField("priority", Decimal(n)))
  {
  }

  /** What a text means as a dumped flow without actions. */
  lemma DumpReads(items: seq<OvsField>)
    requires AllReadable(items)
    ensures var r := Parse(ForDump, RowText(items));
            && (r.Ok? <==> GoodNumbers(items) && Agreeing(items))
            && (r.Ok? ==> r.value == FlowOf(items, -1, -1, "", []))
  {
    hide SetAll, RowText, Trim, ParseFrom, FlowOf, Consistent, FieldSet, Given, GoodNumbers, Agreeing;
    Reads(items);
  }

  lemma RowWithActions(items: seq<OvsField>, actions: seq<OvsField>)
    requires AllReadable(items) && actions != [] && forall a | a in actions :: Plain(a)
    ensures var text := Row(items, ActionsText(actions));
            && Trim(text, IsBlank) == text
            && (GoodNumbers(items) ==> ParseFrom(text, NoFlow) == Ok(FlowOf(items, -1, -1, "", actions)))
            && (!GoodNumbers(items) ==> ParseFrom(text, NoFlow).Err?)
  {
    hide SetAll, Row, TrimLeft, TrimRight, ParseFrom, Plain, Join, GoodNumbers, FieldItems, LastOf;
    var tail := ActionsText(actions);
    JoinEnds(actions);
    ParseRow(items, tail, NoFlow);
    ItemsSay(items);
    RowEnds(items, tail);
    TrimClean(Row(items, tail), IsBlank);
    var f := OvsFlow(-1, -1, "", [], actions);
    if GoodNumbers(items) { ParseTail(f, FlowOf(items, -1, -1, "", [])); }
  }

  /** What a text means as a flow to add: it is refused exactly for a bad number, an output port
      or group, a cookie with a mask, or fields that do not agree; otherwise it is read as
      what it lists, in table 0 with priority 32768 and cookie "0" where it says nothing. */
  lemma AddReads(items: seq<OvsField>, actions: seq<OvsField>)
    requires AllReadable(items) && actions != [] && forall a | a in actions :: Plain(a)
    ensures var r, f := Parse(ForAdd, Row(items, ActionsText(actions))), FlowOf(items, -1, -1, "", actions);
            && (r.Ok? <==>
                  && GoodNumbers(items) && !Given(items, {"out_port", "out_group"}) && Agreeing(items)
                  && '/' !in f.cookie)
            && (r.Ok? && f.cookie != "" ==> r.value == FlowOf(items, 0, 32768, "0", actions))
            && (r.Ok? && f.cookie == "" ==> r.value == FlowOf(items, 0, 32768, "0", actions).(cookie := "0"))
  {
    hide SetAll, Row, Trim, ParseFrom, Plain, Consistent, FieldSet, Given, Agreeing, FieldItems, Atoi;
    RowWithActions(items, actions);
    var f := FlowOf(items, -1, -1, "", actions);
    AgreeingIsConsistent(f, items);
    FieldIsGiven(f, items, {"out_port", "out_group"});
    if GoodNumbers(items) { NumbersAreSet(items); }
  }

  /** A flow to add needs actions, a filter must not have any, and a dumped flow may. */
  lemma ActionsFitPurpose(items: seq<OvsField>, actions: seq<OvsField>)
    requires AllReadable(items) && actions != [] && forall a | a in actions :: Plain(a)
    ensures Parse(ForAdd, RowText(items)).Err? && Parse(ForFilter, Row(items, ActionsText(actions))).Err?
    ensures var r := Parse(ForDump, Row(items, ActionsText(actions)));
            && (r.Ok? <==> GoodNumbers(items) && Agreeing(items))
            && (r.Ok? ==> r.value == FlowOf(items, -1, -1, "", actions))
  {
    hide SetAll, Row, RowText, Trim, ParseFrom, Plain, Consistent, FieldSet, Given, GoodNumbers, Agreeing, FieldItems;
    hide LastOf;
    Reads(items);
    RowWithActions(items, actions);
    AgreeingIsConsistent(FlowOf(items, -1, -1, "", actions), items);
  }

  lemma {:induction false} NumbersAreSet(items: seq<OvsField>)
    requires GoodNumbers(items)
    ensures LastOf(items, "table").Some? ==> InRange(Atoi(LastOf(items, "table").value), 255)
    ensures LastOf(items, "priority").Some? ==> InRange(Atoi(LastOf(items, "priority").value), 65535)
    decreases |items|
  {
    hide Atoi;
    if items != [] {
      var init, x := items[..|items| - 1], items[|items| - 1];
      assert x in items && forall y | y in init :: y in items;
      NumbersAreSet(init);
    }
  }

  /** What was dumped is read back, but the default priority is not printed and stays unset. */
  lemma DumpRoundTrip(f: OvsFlow)
    requires Printable(f)
    ensures Parse(ForDump, Print(f)) == Ok(f.(priority := if f.priority == 32768 then -1 else f.priority))
  {
    hide Plain, Row, FirstItem, SplitActions, SetField, Print, Consistent, HasSlash;
    PrintIsRow(f);
    var tail := ActionsText(f.actions);
    ItemsAreReadable(f);
    ParseRow(Items(f), tail, NoFlow);
    SetItems(f);
    var g := OvsFlow(f.table, if f.priority != DEFAULT_PRIORITY then f.priority else -1, f.cookie, f.fields, []);
    ParseTail(f, g);
    EndsPlain(f);
    TrimPrinted(Row(Items(f), tail));
    SameFields(g.(actions := f.actions), f);
  }

  /** A field with an equals sign and no value is refused. */
  lemma EmptyFieldFails(name: string, rest: string, f: OvsFlow)
    requires IsName(name) && (rest == "" || IsSep(rest[0]))
    ensures name != "actions" ==> ParseFrom(name + "=" + rest, f).Err?
    ensures ParseFrom("actions=", f).Err?
  {
    hide IndexOf, Trim;
    var t := name + "=" + rest;
    assert forall j | 0 <= j < |name| :: t[j] == name[j] && name[j] in name;
    assert t[|name|] == '=' && (rest != "" ==> t[|name| + 1] == rest[0]);
    IndexIs(t, IsEquals, |name|);
    IndexIs(t, IsSep, |name| + 1);
    assert t[..|name|] == name && t[|name| + 1..|name| + 1] == "";
    assert Trim("", IsSep) == "" by { NothingLeft(); }
    var a := "actions=";
    assert forall j | 0 <= j < 7 :: a[j] == "actions"[j];
    IndexIs(a, IsEquals, 7);
    IndexIs(a, IsSep, 8);
    assert a[..7] == "actions" && a[8..] == "";
  }

  lemma NothingLeft()
    ensures Trim("", IsSep) == ""
  {
  }

  // ---- blanks and separators ---------------------------------------------------------------------

  predicate AllIn(s: string, p: char -> bool) {
    forall i | 0 <= i < |s| :: p(s[i])
  }

  lemma {:induction false} TrimLeftSkips(a: string, s: string, p: char -> bool)
    requires AllIn(a, p)
    ensures TrimLeft(a + s, p) == TrimLeft(s, p)
    decreases |a|
  {
    if a == "" {
      assert a + s == s;
    } else {
      assert (a + s)[1..] == a[1..] + s && (a + s)[0] == a[0];
      TrimLeftSkips(a[1..], s, p);
    }
  }

  lemma {:induction false} TrimRightSkips(s: string, b: string, p: char -> bool)
    requires AllIn(b, p)
    ensures TrimRight(s + b, p) == TrimRight(s, p)
    decreases |b|
  {
    if b == "" {
      assert s + b == s;
    } else {
      var t := s + b;
      assert t[..|t| - 1] == s + b[..|b| - 1] && t[|t| - 1] == b[|b| - 1];
      TrimRightSkips(s, b[..|b| - 1], p);
    }
  }

  lemma {:induction false} TrimLeftThrough(s: string, b: string, p: char -> bool)
    ensures if AllIn(s, p) then TrimLeft(s, p) == "" else TrimLeft(s + b, p) == TrimLeft(s, p) + b
    decreases |s|
  {
    if s != "" {
      assert (s + b)[0] == s[0] && (s + b)[1..] == s[1..] + b;
      if p(s[0]) {
        TrimLeftThrough(s[1..], b, p);
        assert AllIn(s, p) <==> AllIn(s[1..], p) by { assert forall i | 0 < i < |s| :: s[i] == s[1..][i - 1]; }
      }
    }
  }

  /** Blanks around a text do not matter. */
  lemma BlanksAround(ptype: ParseType, a: string, text: string, b: string)
    requires AllIn(a, IsBlank) && AllIn(b, IsBlank)
    ensures Parse(ptype, a + text + b) == Parse(ptype, text)
  {
    hide TrimLeft, TrimRight, ParseFrom, Finish;
    assert a + text + b == a + (text + b);
    TrimLeftSkips(a, text + b, IsBlank);
    TrimLeftThrough(text, b, IsBlank);
    if AllIn(text, IsBlank) {
      assert AllIn(text + b, IsBlank);
      TrimLeftThrough(text + b, "", IsBlank);
    } else {
      TrimRightSkips(TrimLeft(text, IsBlank), b, IsBlank);
    }
  }

  /** Any commas and blanks separate items. */
  lemma SeparatorsAreAlike(x: OvsField, sep: string, rest: string)
    requires Readable(x) && sep != "" && AllIn(sep, IsSep) && rest != "" && !IsSep(rest[0])
    ensures FirstItem(FieldText(x) + sep + rest) == Ok(Item(x.name, x.value, rest))
  {
    hide IndexOf, TrimLeft, TrimRight, FieldText, Readable;
    var t := FieldText(x);
    var flow := t + sep + rest;
    WordsJoin(x);
    assert forall j | 0 <= j < |t| :: flow[j] == t[j] && t[j] in t;
    assert flow[|t|] == sep[0];
    IndexIs(flow, IsSep, |t|);
    assert flow[|t|..] == sep + rest && flow[..|t|] == t;
    TrimLeftSkips(sep, rest, IsSep);
    NoTrim(rest);
    EqualsIn(x, sep + rest);
    assert flow == t + (sep + rest);
    if x.value != "" { WordIsClean(x); }
  }

  lemma NoTrim(rest: string)
    requires rest != "" && !IsSep(rest[0])
    ensures TrimLeft(rest, IsSep) == rest
  {
  }

  lemma EqualsIn(x: OvsField, more: string)
    requires Readable(x) && more != "" && IsSep(more[0])
    ensures var t, flow := FieldText(x), FieldText(x) + more;
            var eq := IndexOf(flow, IsEquals);
            if x.value == "" then t == x.name && (eq == |flow| || eq > |t|)
            else eq == |x.name| < |t| && flow[..eq] == x.name && flow[eq + 1..|t|] == x.value
  {
    hide IndexOf, IsWord;
    var t, flow := FieldText(x), FieldText(x) + more;
    assert forall j | 0 <= j < |x.name| :: flow[j] == x.name[j] && x.name[j] in x.name;
    if x.value == "" {
      var eq := IndexOf(flow, IsEquals);
      assert flow[|t|] == more[0];
      assert eq < |flow| ==> IsEquals(flow[eq]);
    } else {
      IndexIs(flow, IsEquals, |x.name|);
    }
  }
}
