/** Flow descriptions as text: the parser of flow strings and the printer of
    dumped flows. */
module FlowText {
  import opened Wrappers

  datatype OvsField = OvsField(name: string, value: string)

  /** `table` and `priority` are -1, and `cookie` "", until they are set. */
  datatype OvsFlow = OvsFlow(table: int, priority: int, cookie: string, fields: seq<OvsField>, actions: seq<OvsField>)

  datatype ParseType = ForAdd | ForFilter | ForDump

  const DEFAULT_PRIORITY := 32768

  // ---- strings ---------------------------------------------------------------------

  predicate IsSep(c: char) {
    c == ',' || c == ' '
  }

  predicate IsSpace(c: char) {
    c in {' ', '\t', '\n', '\r', '\U{000B}', '\U{000C}', '\U{0085}', '\U{00A0}'}
  }

  predicate IsBlank(c: char) {
    c == ' '
  }

  predicate IsColonOrBlank(c: char) {
    c == ':' || c == ' '
  }

  predicate StartsValue(c: char) {
    c == ':' || c == '('
  }

  predicate IsEquals(c: char) {
    c == '='
  }

  /** The first index whose character is in `p`, or the length. */
  function IndexOf(s: string, p: char -> bool): (i: nat)
    ensures i <= |s| && (i < |s| ==> p(s[i])) && forall j | 0 <= j < i :: !p(s[j])
  {
    if s == "" || p(s[0]) then 0 else 1 + IndexOf(s[1..], p)
  }

  lemma IndexIs(s: string, p: char -> bool, i: nat)
    requires i <= |s| && (i < |s| ==> p(s[i])) && forall j | 0 <= j < i :: !p(s[j])
    ensures IndexOf(s, p) == i
  {
    var k := IndexOf(s, p);
    assert k < |s| ==> p(s[k]);
  }

  function TrimLeft(s: string, p: char -> bool): (r: string)
    ensures |r| <= |s|
  {
    if s != "" && p(s[0]) then TrimLeft(s[1..], p) else s
  }

  function TrimRight(s: string, p: char -> bool): (r: string)
    ensures |r| <= |s|
  {
    if s != "" && p(s[|s| - 1]) then TrimRight(s[..|s| - 1], p) else s
  }

  function Trim(s: string, p: char -> bool): string {
    TrimRight(TrimLeft(s, p), p)
  }

  /** No character of `p` at either end. */
  predicate Clean(s: string, p: char -> bool) {
    s == "" || (!p(s[0]) && !p(s[|s| - 1]))
  }

  // ---- numbers ----------------------------------------------------------------------

  function Digit(n: nat): char
    requires n < 10
  {
    "0123456789"[n]
  }

  predicate IsDigit(c: char) {
    '0' <= c <= '9'
  }

  function Decimal(n: nat): (s: string)
    ensures s != "" && forall c | c in s :: IsDigit(c)
  {
    if n < 10 then [Digit(n)] else Decimal(n / 10) + [Digit(n % 10)]
  }

  function DigitValue(c: char): (v: nat)
    requires IsDigit(c)
    ensures v < 10
  {
    (c as int) - ('0' as int)
  }

  /** The value of a string of digits. */
  function Value(s: string): Option<nat> {
    if s == "" then None
    else
      var c, init := s[|s| - 1], s[..|s| - 1];
      if !IsDigit(c) then None
      else if init == "" then Some(DigitValue(c))
      else match Value(init)
        case None => None
        case Some(v) => Some(10 * v + DigitValue(c))
  }

  /** A decimal number with an optional sign. */
  function Atoi(s: string): Option<int> {
    var signed := s != "" && (s[0] == '-' || s[0] == '+');
    var v := Value(if signed then s[1..] else s);
    if v.None? then None
    else
      var n: int := v.value;
      Some(if signed && s[0] == '-' then -n else n)
  }

  lemma {:induction false} DecimalValue(n: nat)
    ensures Value(Decimal(n)) == Some(n)
    decreases n
  {
    if n >= 10 {
      DecimalValue(n / 10);
      assert Decimal(n)[..|Decimal(n)| - 1] == Decimal(n / 10);
    }
  }

  lemma AtoiDecimal(n: nat)
    ensures Atoi(Decimal(n)) == Some(n)
  {
    DecimalValue(n);
    assert Decimal(n)[0] in Decimal(n);
  }

  // ---- actions ------------------------------------------------------------------------

  function ActionToOvsField(a: string): Result<OvsField, string> {
    if a == "" then Err("cannot make field from empty action")
    else
      var sep := IndexOf(a, StartsValue);
      if sep == |a| then Ok(OvsField(Trim(a, IsSpace), ""))
      else if sep == |a| - 1 then Err("action has no value")
      else Ok(OvsField(Trim(a[..sep], IsSpace), Trim(a[sep..], IsColonOrBlank)))
  }

  /** Where the next action ends: at a comma outside all brackets, at the end of
      the text with some brackets open, or nowhere because a bracket closes that was not open. */
  datatype Cut = At(i: nat) | End(parens: nat, braces: nat) | Mismatch

  function FindCut(s: string, i: nat, parens: nat, braces: nat): Cut
    requires i <= |s|
    decreases |s| - i
  {
    if i == |s| then End(parens, braces)
    else match s[i]
      case ',' => if parens == 0 && braces == 0 then At(i) else FindCut(s, i + 1, parens, braces)
      case '(' => FindCut(s, i + 1, parens + 1, braces)
      case '[' => FindCut(s, i + 1, parens, braces + 1)
      case ')' => if parens == 0 then Mismatch else FindCut(s, i + 1, parens - 1, braces)
      case ']' => if braces == 0 then Mismatch else FindCut(s, i + 1, parens, braces - 1)
      case _ => FindCut(s, i + 1, parens, braces)
  }

  lemma {:induction false} CutIsComma(s: string, i: nat, parens: nat, braces: nat)
    requires i <= |s|
    ensures var c := FindCut(s, i, parens, braces); c.At? ==> i <= c.i < |s| && s[c.i] == ','
    decreases |s| - i
  {
    if i < |s| {
      CutIsComma(s, i + 1, parens, braces);
      CutIsComma(s, i + 1, parens + 1, braces);
      CutIsComma(s, i + 1, parens, braces + 1);
      if parens > 0 { CutIsComma(s, i + 1, parens - 1, braces); }
      if braces > 0 { CutIsComma(s, i + 1, parens, braces - 1); }
    }
  }

  /** The actions of a text; the scan for the end of the first action starts at `from`. */
  function SplitActions(s: string, from: nat): Result<seq<OvsField>, string>
    requires from <= |s|
    decreases |s|
  {
    CutIsComma(s, from, 0, 0);
    match FindCut(s, from, 0, 0)
    case Mismatch => Err("mismatched brackets in actions")
    case End(parens, braces) =>
      if parens > 0 || braces > 0 then Err("mismatched brackets in actions")
      else (match ActionToOvsField(s)
            case Err(e) => Err(e)
            case Ok(f) => Ok([f]))
    case At(i) =>
      match ActionToOvsField(s[..i])
      case Err(e) => Err(e)
      case Ok(f) =>
        if s[i + 1..] == "" then Ok([f])
        else match SplitActions(s[i + 1..], 1)
          case Err(e) => Err(e)
          case Ok(rest) => Ok([f] + rest)
  }

  function Text(a: OvsField): string {
    if a.value == "" then a.name
    else if a.value[0] != '(' then a.name + ":" + a.value
    else a.name + a.value
  }

  function Join(actions: seq<OvsField>): string {
    if actions == [] then ""
    else if |actions| == 1 then Text(actions[0])
    else Text(actions[0]) + "," + Join(actions[1..])
  }

  predicate IsBracket(c: char) {
    c in {'(', ')', '[', ']'}
  }

  /** The text's brackets balance, and its commas are inside them. */
  predicate Closed(s: string) {
    FindCut(s, 0, 0, 0) == End(0, 0)
  }

  /** An action that reads back as printed: no bracket or colon in the name, nothing
      to trim, and a nonempty text that is closed and does not start with a bracket or comma. */
  predicate Plain(a: OvsField) {
    && Clean(a.name, IsSpace) && (forall c | c in a.name :: !StartsValue(c)) && Clean(a.value, IsColonOrBlank)
    && Closed(Text(a)) && Text(a) != "" && Text(a)[0] != ',' && !IsBracket(Text(a)[0])
  }

  lemma ActionReadsBack(a: OvsField)
    requires Plain(a)
    ensures ActionToOvsField(Text(a)) == Ok(a)
  {
    hide FindCut, IsSpace, TrimLeft, TrimRight;
    TrimClean(a.name, IsSpace);
    TrimClean(a.value, IsColonOrBlank);
    var t, k := Text(a), |a.name|;
    assert forall j | 0 <= j < k :: t[j] == a.name[j] && a.name[j] in a.name;
    IndexIs(t, StartsValue, k);
    assert t[..k] == a.name;
    if a.value == "" {
      assert t == a.name;
    } else if a.value[0] != '(' {
      assert t[k..] == ":" + a.value;
      TrimColon(a.value);
    } else {
      assert t[k..] == a.value;
      OneBracketIsOpen(a.name, a.value);
    }
  }

  /** An action is refused iff it is empty or ends with the colon or parenthesis that
      would start its value. */
  lemma ActionRefusedIff(a: string)
    ensures ActionToOvsField(a).Err? <==>
              a == "" || (a[|a| - 1] in {':', '('} && forall i | 0 <= i < |a| - 1 :: a[i] !in {':', '('})
  {
    hide Trim;
    if a != "" {
      var k := IndexOf(a, StartsValue);
      assert k < |a| ==> StartsValue(a[k]);
    }
  }

  lemma TrimClean(s: string, p: char -> bool)
    requires Clean(s, p)
    ensures TrimRight(TrimLeft(s, p), p) == s
  {
  }

  lemma TrimColon(s: string)
    requires s != "" && Clean(s, IsColonOrBlank)
    ensures Trim(":" + s, IsColonOrBlank) == s
  {
    assert (":" + s)[1..] == s;
    assert TrimLeft(":" + s, IsColonOrBlank) == TrimLeft(s, IsColonOrBlank) == s;
  }

  lemma OneBracketIsOpen(name: string, value: string)
    requires Closed(name + value) && value != "" && value[0] == '('
    ensures |value| > 1
  {
    if |value| == 1 {
      LastIsOpen(name + value, 0, 0, 0);
    }
  }

  lemma {:induction false} LastIsOpen(s: string, i: nat, parens: nat, braces: nat)
    requires i < |s| && s[|s| - 1] == '('
    ensures FindCut(s, i, parens, braces) != End(0, 0)
    decreases |s| - i
  {
    if i < |s| - 1 {
      LastIsOpen(s, i + 1, parens, braces);
      LastIsOpen(s, i + 1, parens + 1, braces);
      LastIsOpen(s, i + 1, parens, braces + 1);
      if parens > 0 { LastIsOpen(s, i + 1, parens - 1, braces); }
      if braces > 0 { LastIsOpen(s, i + 1, parens, braces - 1); }
    }
  }

  /** A closed text followed by a comma is cut at that comma. */
  lemma {:induction false} ClosedIsCut(a: string, t: string, i: nat, parens: nat, braces: nat)
    requires i <= |a| && FindCut(a, i, parens, braces) == End(0, 0)
    ensures FindCut(a + "," + t, i, parens, braces) == At(|a|)
    decreases |a| - i
  {
    if i < |a| {
      assert (a + "," + t)[i] == a[i];
      match a[i]
      case ',' => ClosedIsCut(a, t, i + 1, parens, braces);
      case '(' => ClosedIsCut(a, t, i + 1, parens + 1, braces);
      case '[' => ClosedIsCut(a, t, i + 1, parens, braces + 1);
      case ')' => ClosedIsCut(a, t, i + 1, parens - 1, braces);
      case ']' => ClosedIsCut(a, t, i + 1, parens, braces - 1);
      case _ => ClosedIsCut(a, t, i + 1, parens, braces);
    } else {
      assert (a + "," + t)[i] == ',';
    }
  }

  lemma StartIsPlain(a: OvsField)
    requires Plain(a)
    ensures Text(a) != "" && FindCut(Text(a), 1, 0, 0) == End(0, 0)
  {
  }

  /** Actions are split just where they were joined. */
  lemma {:induction false} SplitJoined(actions: seq<OvsField>, from: nat)
    requires actions != [] && (forall a | a in actions :: Plain(a)) && from <= 1
    ensures Join(actions) != "" && SplitActions(Join(actions), from) == Ok(actions)
    decreases |actions|
  {
    hide Plain, FindCut, ActionToOvsField, Text;
    var a := actions[0];
    assert Plain(a);
    StartIsPlain(a);
    ActionReadsBack(a);
    assert FindCut(Text(a), from, 0, 0) == End(0, 0) by { PlainIsClosed(a); }
    if |actions| == 1 {
      assert actions == [a];
    } else {
      var rest := actions[1..];
      SplitJoined(rest, 1);
      var s := Join(actions);
      assert s == Text(a) + "," + Join(rest);
      ClosedIsCut(Text(a), Join(rest), from, 0, 0);
      assert s[..|Text(a)|] == Text(a) && s[|Text(a)| + 1..] == Join(rest);
      assert actions == [a] + rest;
    }
  }

  lemma PlainIsClosed(a: OvsField)
    requires Plain(a)
    ensures FindCut(Text(a), 0, 0, 0) == End(0, 0)
  {
  }

  /** How many more brackets are opened than closed. */
  function Net(s: string, open: char, close: char): int {
    if s == "" then 0
    else (if s[0] == open then 1 else if s[0] == close then -1 else 0) + Net(s[1..], open, close)
  }

  /** A cut is a comma outside all brackets that opened since the scan began. */
  lemma {:induction false} CutIsOutside(s: string, i: nat, parens: nat, braces: nat)
    requires i <= |s|
    ensures var c := FindCut(s, i, parens, braces);
            c.At? ==> i <= c.i < |s| && s[c.i] == ','
                      && parens + Net(s[i..c.i], '(', ')') == 0 && braces + Net(s[i..c.i], '[', ']') == 0
    decreases |s| - i
  {
    var c := FindCut(s, i, parens, braces);
    CutIsComma(s, i, parens, braces);
    if i < |s| && c.At? && !(s[i] == ',' && parens == 0 && braces == 0) {
      CutStep(s, i, parens, braces);
      match s[i]
      case '(' => CutIsOutside(s, i + 1, parens + 1, braces);
      case '[' => CutIsOutside(s, i + 1, parens, braces + 1);
      case ')' => CutIsOutside(s, i + 1, parens - 1, braces);
      case ']' => CutIsOutside(s, i + 1, parens, braces - 1);
      case _ => CutIsOutside(s, i + 1, parens, braces);
      assert s[i..c.i][0] == s[i] && s[i..c.i][1..] == s[i + 1..c.i];
    }
  }

  // ---- the scanning loop ---------------------------------------------------------------

  predicate IsToken(c: char) {
    c == ',' || IsBracket(c)
  }

  lemma {:induction false} SkipPlain(s: string, i: nat, k: nat, parens: nat, braces: nat)
    requires i <= k <= |s| && forall j | i <= j < k :: !IsToken(s[j])
    ensures FindCut(s, i, parens, braces) == FindCut(s, k, parens, braces)
    decreases k - i
  {
    if i < k {
      assert !IsToken(s[i]);
      SkipPlain(s, i + 1, k, parens, braces);
    }
  }

  function Prepend(fs: seq<OvsField>, r: Result<seq<OvsField>, string>): Result<seq<OvsField>, string> {
    if r.Err? then r else Ok(fs + r.value)
  }

  lemma PrependNothing(s: string)
    ensures s != "" ==> SplitActions(s, 0) == Prepend([], SplitActions(s, 0))
  {
    hide FindCut, ActionToOvsField;
    if s != "" && SplitActions(s, 0).Ok? {
      assert [] + SplitActions(s, 0).value == SplitActions(s, 0).value;
    }
  }

  /** One character of the scan. */
  lemma CutStep(s: string, i: nat, parens: nat, braces: nat)
    requires i <= |s|
    ensures i == |s| ==> FindCut(s, i, parens, braces) == End(parens, braces)
    ensures i < |s| && s[i] == ',' ==>
              FindCut(s, i, parens, braces) ==
                    if parens == 0 && braces == 0 then At(i) else FindCut(s, i + 1, parens, braces)
    ensures i < |s| && s[i] == '(' ==> FindCut(s, i, parens, braces) == FindCut(s, i + 1, parens + 1, braces)
    ensures i < |s| && s[i] == '[' ==> FindCut(s, i, parens, braces) == FindCut(s, i + 1, parens, braces + 1)
    ensures i < |s| && s[i] == ')' ==>
              FindCut(s, i, parens, braces) == if parens == 0 then Mismatch else FindCut(s, i + 1, parens - 1, braces)
    ensures i < |s| && s[i] == ']' ==>
              FindCut(s, i, parens, braces) == if braces == 0 then Mismatch else FindCut(s, i + 1, parens, braces - 1)
  {
  }

  lemma TokenIs(c: char)
    requires IsToken(c)
    ensures c == ',' || c == '(' || c == '[' || c == ')' || c == ']'
  {
  }

  lemma AppendAfter(fields: seq<OvsField>, f: OvsField, s: string, from: nat, i: nat)
    requires from <= |s| && FindCut(s, from, 0, 0) == At(i) && i < |s| && ActionToOvsField(s[..i]) == Ok(f)
    ensures s[i + 1..] == "" ==> Prepend(fields, SplitActions(s, from)) == Ok(fields + [f])
    ensures s[i + 1..] != "" ==>
              Prepend(fields, SplitActions(s, from)) == Prepend(fields + [f], SplitActions(s[i + 1..], 1))
  {
    hide FindCut, ActionToOvsField;
    if s[i + 1..] != "" && SplitActions(s[i + 1..], 1).Ok? {
      var rest := SplitActions(s[i + 1..], 1).value;
      assert fields + ([f] + rest) == (fields + [f]) + rest;
    }
  }

  /** Splits the text at commas outside all brackets.  After a cut the scan resumes at the
      second character of the rest. */
  method ParseActions(actions: string) returns (r: Result<seq<OvsField>, string>)
    ensures actions == "" ==> r == Ok([])
    ensures actions != "" ==> r == SplitActions(actions, 0)
  {
    hide FindCut, ActionToOvsField, IsBracket;
    var fields: seq<OvsField> := [];
    var s, idx, parens, braces: nat := actions, 0, 0, 0;
    ghost var from: nat := 0;
    PrependNothing(actions);
    while s != ""
      invariant from <= 1 && (s != "" ==> idx <= |s| && FindCut(s, from, 0, 0) == FindCut(s, idx, parens, braces))
      invariant actions != "" && s != "" ==> SplitActions(actions, 0) == Prepend(fields, SplitActions(s, from))
      invariant s == "" ==> if actions == "" then fields == [] else SplitActions(actions, 0) == Ok(fields)
      decreases |s|, |s| - idx
    {
      var token := IndexOf(s[idx..], IsToken);
      assert forall j | idx <= j < idx + token :: s[j] == s[idx..][j - idx];
      SkipPlain(s, idx, idx + token, parens, braces);
      CutStep(s, idx + token, parens, braces);
      if token == |s[idx..]| {
        if parens > 0 {
          return Err("mismatched brackets in actions");
        } else if braces > 0 {
          return Err("mismatched brackets in actions");
        }
        var field := ActionToOvsField(s);
        if field.Err? {
          return Err(field.error);
        }
        fields := fields + [field.value];
        break;
      }
      idx := idx + token;
      assert s[idx] == s[idx - token..][token];
      var c := s[idx];
      TokenIs(c);
      if c == ',' {
        if parens == 0 && braces == 0 {
          var field := ActionToOvsField(s[..idx]);
          if field.Err? {
            return Err(field.error);
          }
          AppendAfter(fields, field.value, s, from, idx);
          fields := fields + [field.value];
          s := s[idx + 1..];
          idx, from := 0, 1;
        }
      } else if c == '(' {
        parens := parens + 1;
      } else if c == '[' {
        braces := braces + 1;
      } else if c == ')' {
        if parens == 0 {
          return Err("mismatched brackets in actions");
        }
        parens := parens - 1;
      } else if c == ']' {
        if braces == 0 {
          return Err("mismatched brackets in actions");
        }
        braces := braces - 1;
      }
      idx := idx + 1;
    }
    r := Ok(fields);
  }

  // ---- flows -----------------------------------------------------------------------------

  /** The first field of a text, its value, and the text after it. */
  datatype Item = Item(name: string, value: string, next: string)

  function FirstItem(flow: string): Result<Item, string> {
    var end, eq := IndexOf(flow, IsSep), IndexOf(flow, IsEquals);
    if eq == |flow| || eq > end then Ok(Item(flow[..end], "", TrimLeft(flow[end..], IsSep)))
    else if flow[..eq] == "actions" then
      if flow[eq + 1..] == "" then Err("empty field") else Ok(Item("actions", flow[eq + 1..], ""))
    else
      EqualsBeforeEnd(flow, end, eq);
      var value := Trim(flow[eq + 1..end], IsSep);
      if value == "" then Err("empty field") else Ok(Item(flow[..eq], value, TrimLeft(flow[end..], IsSep)))
  }

  lemma EqualsBeforeEnd(flow: string, end: nat, eq: nat)
    requires end == IndexOf(flow, IsSep) && eq == IndexOf(flow, IsEquals) && eq < |flow| && eq <= end
    ensures eq < end
  {
  }

  lemma NextIsShorter(flow: string)
    requires flow != "" && FirstItem(flow).Ok?
    ensures |FirstItem(flow).value.next| < |flow|
  {
    hide IndexOf, Trim;
    var end := IndexOf(flow, IsSep);
    if end == 0 {
      assert flow[0..] == flow;
    }
  }

  /** Takes over one field. */
  function SetField(f: OvsFlow, name: string, value: string): Result<OvsFlow, string> {
    if name == "table" then
      var n := Atoi(value);
      if n.None? then Err("bad table number")
      else if n.value < 0 || n.value > 255 then Err("table number out of range")
      else Ok(f.(table := n.value))
    else if name == "priority" then
      var n := Atoi(value);
      if n.None? then Err("bad priority")
      else if n.value < 0 || n.value > 65535 then Err("priority out of range")
      else Ok(f.(priority := n.value))
    else if name == "actions" then
      (match (if value == "" then Ok([]) else SplitActions(value, 0))
       case Err(e) => Err(e)
       case Ok(actions) => Ok(f.(actions := actions)))
    else if name == "cookie" then Ok(f.(cookie := value))
    else Ok(f.(fields := f.fields + [OvsField(name, value)]))
  }

  function ParseFrom(flow: string, f: OvsFlow): Result<OvsFlow, string>
    decreases |flow|
  {
    if flow == "" then Ok(f)
    else match FirstItem(flow)
      case Err(e) => Err(e)
      case Ok(item) =>
        NextIsShorter(flow);
        match SetField(f, item.name, item.value)
        case Err(e) => Err(e)
        case Ok(g) => ParseFrom(item.next, g)
  }

  predicate FieldSet(f: OvsFlow, name: string) {
    exists i | 0 <= i < |f.fields| :: f.fields[i].name == name
  }

  predicate HasSlash(s: string) {
    '/' in s
  }

  /** Fields that need another field to be present have it. */
  predicate Consistent(f: OvsFlow) {
    && (FieldSet(f, "nw_src") || FieldSet(f, "nw_dst") ==>
          FieldSet(f, "ip") || FieldSet(f, "arp") || FieldSet(f, "tcp") || FieldSet(f, "udp"))
    && (FieldSet(f, "arp_spa") || FieldSet(f, "arp_tpa") || FieldSet(f, "arp_sha") || FieldSet(f, "arp_tha") ==>
          FieldSet(f, "arp"))
    && (FieldSet(f, "tcp_src") || FieldSet(f, "tcp_dst") ==> FieldSet(f, "tcp"))
    && (FieldSet(f, "udp_src") || FieldSet(f, "udp_dst") ==> FieldSet(f, "udp"))
    && (FieldSet(f, "tp_src") || FieldSet(f, "tp_dst") ==> FieldSet(f, "tcp") || FieldSet(f, "udp"))
    && (FieldSet(f, "ip_frag") ==> !FieldSet(f, "tcp") && !FieldSet(f, "udp"))
  }

  /** Checks and defaults for one purpose. */
  function Finish(ptype: ParseType, f: OvsFlow): Result<OvsFlow, string> {
    if ptype == ForAdd then
      if FieldSet(f, "out_port") || FieldSet(f, "out_group") then Err("field not allowed")
      else if f.actions == [] then Err("empty actions")
      else if f.cookie != "" && HasSlash(f.cookie) then Err("cookie must be 'value', not 'value/mask'")
      else if !Consistent(f) then Err("inconsistent fields")
      else Ok(f.(table := if f.table == -1 then 0 else f.table,
                 priority := if f.priority == -1 then DEFAULT_PRIORITY else f.priority,
                 cookie := if f.cookie == "" then "0" else f.cookie))
    else if ptype == ForFilter then
      if FieldSet(f, "priority") || FieldSet(f, "out_port") || FieldSet(f, "out_group") then Err("field not allowed")
      else if f.cookie != "" && !HasSlash(f.cookie) then Err("cookie must be 'value/mask', not just 'value'")
      else if f.actions != [] then Err("actions not allowed")
      else if !Consistent(f) then Err("inconsistent fields")
      else Ok(f)
    else if !Consistent(f) then Err("inconsistent fields")
    else Ok(f)
  }

  const NoFlow := OvsFlow(-1, -1, "", [], [])

  function Parse(ptype: ParseType, text: string): Result<OvsFlow, string> {
    match ParseFrom(Trim(text, IsBlank), NoFlow)
    case Err(e) => Err(e)
    case Ok(f) => Finish(ptype, f)
  }

  /** Cuts off the first field and skips the separators after it. */
  method NextItem(flow: string) returns (r: Result<Item, string>)
    requires flow != ""
    ensures r == FirstItem(flow)
  {
    hide Trim, IndexOf;
    var end, eq := IndexOf(flow, IsSep), IndexOf(flow, IsEquals);
    EndsWithin(flow);
    var name, value := "", "";
    if eq == |flow| || eq > end {
      name := flow[..end];
    } else {
      name := flow[..eq];
      if name == "actions" {
        end := |flow|;
        value := flow[eq + 1..];
      } else {
        EqualsBeforeEnd(flow, end, eq);
        value := Trim(flow[eq + 1..end], IsSep);
      }
      if value == "" {
        return Err("empty field");
      }
    }
    var next := SkipSeparators(flow, end);
    r := Ok(Item(name, value, next));
  }

  method SkipSeparators(flow: string, from: nat) returns (next: string)
    requires from <= |flow|
    ensures next == TrimLeft(flow[from..], IsSep)
  {
    var end := from;
    while end < |flow| && (flow[end] == ',' || flow[end] == ' ')
      invariant from <= end <= |flow| && TrimLeft(flow[from..], IsSep) == TrimLeft(flow[end..], IsSep)
    {
      assert flow[end..][1..] == flow[end + 1..];
      end := end + 1;
    }
    next := flow[end..];
  }

  /** The parsing loop; it ends for every text. */
  method ParseFlow(ptype: ParseType, text: string) returns (r: Result<OvsFlow, string>)
    ensures r == Parse(ptype, text)
  {
    hide Trim, FirstItem, SetField, Finish;
    var parsed := NoFlow;
    var flow := Trim(text, IsBlank);
    while flow != ""
      invariant ParseFrom(Trim(text, IsBlank), NoFlow) == ParseFrom(flow, parsed)
      decreases |flow|
    {
      var item := NextItem(flow);
      if item.Err? {
        return Err(item.error);
      }
      NextIsShorterIfAny(flow);
      var taken := SetFieldNow(parsed, item.value.name, item.value.value);
      if taken.Err? {
        return Err(taken.error);
      }
      parsed, flow := taken.value, item.value.next;
    }
    r := Finish(ptype, parsed);
  }

  lemma EndsWithin(flow: string)
    ensures IndexOf(flow, IsSep) <= |flow| && IndexOf(flow, IsEquals) <= |flow|
  {
  }

  lemma NextIsShorterIfAny(flow: string)
    requires flow != ""
    ensures FirstItem(flow).Ok? ==> |FirstItem(flow).value.next| < |flow|
  {
    if FirstItem(flow).Ok? {
      NextIsShorter(flow);
    }
  }

  method SetFieldNow(f: OvsFlow, name: string, value: string) returns (r: Result<OvsFlow, string>)
    ensures r == SetField(f, name, value)
  {
    hide SplitActions, Atoi;
    if name == "actions" {
      var actions := ParseActions(value);
      if actions.Err? {
        return Err(actions.error);
      }
      return Ok(f.(actions := actions.value));
    }
    r := SetField(f, name, value);
  }

  // ---- printing --------------------------------------------------------------------------

  function FieldText(f: OvsField): string {
    if f.value == "" then f.name else f.name + "=" + f.value
  }

  function FieldsText(fields: seq<OvsField>): string {
    if fields == [] then "" else ", " + FieldText(fields[0]) + FieldsText(fields[1..])
  }

  function CookieItem(f: OvsFlow): OvsField {
    OvsField("cookie", f.cookie)
  }

  /** What stands between cookie and actions. */
  function MiddleItems(f: OvsFlow): seq<OvsField>
    requires f.table >= 0 && f.priority >= 0
  {
    [OvsField("table", Decimal(f.table))]
    + ((if f.priority != DEFAULT_PRIORITY then [OvsField("priority", Decimal(f.priority))] else []) + f.fields)
  }

  function ActionsText(actions: seq<OvsField>): string {
    "actions=" + Join(actions)
  }

  /** Appends action texts, with a comma wherever something stands before. */
  function JoinOnto(text: string, actions: seq<OvsField>): string
    decreases |actions|
  {
    if actions == [] then text else JoinOnto((if text == "" then "" else text + ",") + Text(actions[0]), actions[1..])
  }

  function Print(f: OvsFlow): string
    requires f.table >= 0 && f.priority >= 0
  {
    " cookie=" + f.cookie + FieldsText(MiddleItems(f))
    + if JoinOnto("", f.actions) != "" then ", actions=" + JoinOnto("", f.actions) else ""
  }

  lemma {:induction false} FieldsTextSnoc(fields: seq<OvsField>, f: OvsField)
    ensures FieldsText(fields + [f]) == FieldsText(fields) + ", " + FieldText(f)
    decreases |fields|
  {
    if fields == [] {
      assert [f][1..] == [];
    } else {
      FieldsTextSnoc(fields[1..], f);
      assert (fields + [f])[1..] == fields[1..] + [f];
    }
  }

  /** Without empty texts, appending is joining with commas. */
  lemma {:induction false} JoinOntoIsJoin(text: string, actions: seq<OvsField>)
    requires forall a | a in actions :: Text(a) != ""
    ensures JoinOnto(text, actions) ==
              if actions == [] then text else if text == "" then Join(actions) else text + "," + Join(actions)
    decreases |actions|
  {
    hide Text;
    if actions != [] {
      var more := (if text == "" then "" else text + ",") + Text(actions[0]);
      JoinOntoIsJoin(more, actions[1..]);
      assert Text(actions[0]) != "";
      if |actions| > 1 {
        assert more + "," + Join(actions[1..]) ==
               (if text == "" then "" else text + ",") + (Text(actions[0]) + "," + Join(actions[1..]));
      }
    }
  }

  lemma HeadText(lead: string, table: string)
    requires table != ""
    ensures lead + ", table=" + table == lead + FieldsText([OvsField("table", table)])
  {
    FieldsTextSnoc([], OvsField("table", table));
    assert [] + [OvsField("table", table)] == [OvsField("table", table)];
    assert ", table=" + table == ", " + ("table" + "=" + table);
  }

  lemma PriorityText(str: string, priority: string)
    requires priority != ""
    ensures str + ", priority=" + priority == str + ", " + FieldText(OvsField("priority", priority))
  {
    assert ", priority=" + priority == ", " + ("priority" + "=" + priority);
  }

  method DumpFields(head: string, ghost lead: string, ghost before: seq<OvsField>, fields: seq<OvsField>)
    returns (str: string)
    requires head == lead + FieldsText(before)
    ensures str == lead + FieldsText(before + fields)
  {
    hide FieldText, FieldsText;
    str := head;
    assert before + [] == before;
    for i := 0 to |fields|
      invariant str == lead + FieldsText(before + fields[..i])
    {
      FieldsTextSnoc(before + fields[..i], fields[i]);
      assert before + fields[..i + 1] == (before + fields[..i]) + [fields[i]];
      str := str + ", " + FieldText(fields[i]);
    }
    assert fields[..|fields|] == fields;
  }

  method DumpActions(actions: seq<OvsField>) returns (str: string)
    ensures str == JoinOnto("", actions)
  {
    hide Text;
    str := "";
    for i := 0 to |actions|
      invariant JoinOnto(str, actions[i..]) == JoinOnto("", actions)
    {
      assert actions[i..][0] == actions[i] && actions[i..][1..] == actions[i + 1..];
      if |str| > 0 {
        str := str + ",";
      }
      str := str + Text(actions[i]);
    }
  }

  /** One line of a dump. */
  method DumpFlow(f: OvsFlow) returns (str: string)
    requires f.table >= 0 && f.priority >= 0
    ensures str == Print(f)
  {
    hide Decimal, FieldText, FieldsText, JoinOnto;
    ghost var lead := " cookie=" + f.cookie;
    str := " cookie=" + f.cookie + ", table=" + Decimal(f.table);
    ghost var before := [OvsField("table", Decimal(f.table))];
    HeadText(lead, Decimal(f.table));
    if f.priority != DEFAULT_PRIORITY {
      PriorityText(str, Decimal(f.priority));
      FieldsTextSnoc(before, OvsField("priority", Decimal(f.priority)));
      before := before + [OvsField("priority", Decimal(f.priority))];
      str := str + ", priority=" + Decimal(f.priority);
    }
    str := DumpFields(str, lead, before, f.fields);
    assert before + f.fields == MiddleItems(f);
    var actionStr := DumpActions(f.actions);
    if |actionStr| > 0 {
      str := str + ", actions=" + actionStr;
    }
  }

  // ---- round trip --------------------------------------------------------------------------

  /** A text without separators. */
  predicate IsWord(s: string) {
    forall c | c in s :: !IsSep(c)
  }

  /** A nonempty word without an equals sign. */
  predicate IsName(s: string) {
    s != "" && IsWord(s) && forall c | c in s :: !IsEquals(c)
  }

  predicate Reserved(name: string) {
    name in {"table", "priority", "actions", "cookie"}
  }

  /** Can be printed and read back. */
  predicate Printable(f: OvsFlow) {
    && 0 <= f.table <= 255 && 0 <= f.priority <= 65535
    && f.cookie != "" && IsWord(f.cookie) && !HasSlash(f.cookie)
    && (forall x | x in f.fields :: IsName(x.name) && IsWord(x.value) && !Reserved(x.name))
    && !FieldSet(f, "out_port") && !FieldSet(f, "out_group") && Consistent(f)
    && f.actions != [] && forall a | a in f.actions :: Plain(a)
  }

  /** Fields separated as the printer does, before a tail. */
  function Row(items: seq<OvsField>, tail: string): string {
    if items == [] then tail else FieldText(items[0]) + ", " + Row(items[1..], tail)
  }

  lemma {:induction false} RowIsPrinted(items: seq<OvsField>, tail: string)
    ensures FieldsText(items) + ", " + tail == ", " + Row(items, tail)
  {
    if items != [] {
      RowIsPrinted(items[1..], tail);
      var t := FieldText(items[0]);
      calc {
        FieldsText(items) + ", " + tail;
        (", " + t + FieldsText(items[1..])) + ", " + tail;
        (", " + t) + (FieldsText(items[1..]) + ", " + tail);
        (", " + t) + (", " + Row(items[1..], tail));
        ", " + (t + ", " + Row(items[1..], tail));
      }
    }
  }

  ghost predicate Readable(x: OvsField) {
    IsName(x.name) && IsWord(x.value) && x.name != "actions"
  }

  /** The first field of a row is the one printed first. */
  lemma FirstOfRow(x: OvsField, rest: string)
    requires Readable(x) && rest != "" && !IsSep(rest[0])
    ensures FirstItem(FieldText(x) + ", " + rest) == Ok(Item(x.name, x.value, rest))
  {
    hide IndexOf, TrimLeft, TrimRight, FieldText, Readable;
    var t := FieldText(x);
    var flow := t + ", " + rest;
    FirstSeparator(x, rest);
    assert flow[|t|..] == ", " + rest && flow[..|t|] == t;
    SkipTwo(rest);
    if x.value == "" {
      FirstEqualsNone(x, rest);
    } else {
      FirstEquals(x, rest);
      WordIsClean(x);
    }
  }

  lemma FirstSeparator(x: OvsField, rest: string)
    requires Readable(x)
    ensures IndexOf(FieldText(x) + ", " + rest, IsSep) == |FieldText(x)|
  {
    hide FieldText;
    var t := FieldText(x);
    var flow := t + ", " + rest;
    WordsJoin(x);
    assert forall j | 0 <= j < |t| :: flow[j] == t[j] && t[j] in t;
    IndexIs(flow, IsSep, |t|);
  }

  lemma FirstEqualsNone(x: OvsField, rest: string)
    requires Readable(x) && x.value == ""
    ensures FieldText(x) == x.name
    ensures var flow := FieldText(x) + ", " + rest;
            IndexOf(flow, IsEquals) == |flow| || IndexOf(flow, IsEquals) > |FieldText(x)|
  {
    hide IndexOf;
    var flow := x.name + ", " + rest;
    assert forall j | 0 <= j < |x.name| :: flow[j] == x.name[j] && x.name[j] in x.name;
    EqualsAfter(flow, |x.name|);
  }

  lemma FirstEquals(x: OvsField, rest: string)
    requires Readable(x) && x.value != ""
    ensures var flow := FieldText(x) + ", " + rest;
            && IndexOf(flow, IsEquals) == |x.name| < |FieldText(x)| && flow[..|x.name|] == x.name
            && flow[|x.name| + 1..|FieldText(x)|] == x.value
  {
    hide IndexOf;
    var flow := FieldText(x) + ", " + rest;
    assert forall j | 0 <= j < |x.name| :: flow[j] == x.name[j] && x.name[j] in x.name;
    IndexIs(flow, IsEquals, |x.name|);
  }

  lemma WordIsClean(x: OvsField)
    requires Readable(x) && x.value != ""
    ensures Trim(x.value, IsSep) == x.value && x.name != "actions"
  {
    assert x.value[0] in x.value && x.value[|x.value| - 1] in x.value;
    TrimClean(x.value, IsSep);
  }

  lemma WordsJoin(x: OvsField)
    requires Readable(x)
    ensures IsWord(FieldText(x)) && (x.value == "" ==> forall c | c in FieldText(x) :: !IsEquals(c))
  {
  }

  lemma EqualsAfter(flow: string, n: nat)
    requires n < |flow| && flow[n] == ',' && forall j | 0 <= j < n :: !IsEquals(flow[j])
    ensures IndexOf(flow, IsEquals) == |flow| || IndexOf(flow, IsEquals) > n
  {
    var i := IndexOf(flow, IsEquals);
    assert i < |flow| ==> IsEquals(flow[i]);
  }

  lemma SkipTwo(rest: string)
    requires rest != "" && !IsSep(rest[0])
    ensures TrimLeft(", " + rest, IsSep) == rest
  {
    assert (", " + rest)[1..] == " " + rest && (" " + rest)[1..] == rest;
    assert TrimLeft(" " + rest, IsSep) == TrimLeft(rest, IsSep);
  }

  /** Takes over a list of fields. */
  ghost function SetAll(f: OvsFlow, items: seq<OvsField>): Result<OvsFlow, string>
    decreases |items|
  {
    if items == [] then Ok(f)
    else match SetField(f, items[0].name, items[0].value)
      case Err(e) => Err(e)
      case Ok(g) => SetAll(g, items[1..])
  }

  lemma {:induction false} ParseRow(items: seq<OvsField>, tail: string, f: OvsFlow)
    requires (forall x | x in items :: Readable(x)) && tail != "" && !IsSep(tail[0])
    ensures Row(items, tail) != "" && !IsSep(Row(items, tail)[0])
    ensures SetAll(f, items).Ok? ==> ParseFrom(Row(items, tail), f) == ParseFrom(tail, SetAll(f, items).value)
    ensures SetAll(f, items).Err? ==> ParseFrom(Row(items, tail), f) == Err(SetAll(f, items).error)
    decreases |items|
  {
    hide FirstItem, SetField, FieldText;
    if items != [] {
      var x := items[0];
      assert Readable(x);
      var rest := Row(items[1..], tail);
      var taken := SetField(f, x.name, x.value);
      ParseRow(items[1..], tail, if taken.Ok? then taken.value else f);
      FirstOfRow(x, rest);
      FieldStarts(x);
    }
  }

  lemma FieldStarts(x: OvsField)
    requires Readable(x)
    ensures FieldText(x) != "" && !IsSep(FieldText(x)[0])
  {
    assert FieldText(x)[0] == x.name[0] && x.name[0] in x.name;
  }

  lemma {:induction false} SetFields(f: OvsFlow, fields: seq<OvsField>)
    requires forall x | x in fields :: !Reserved(x.name)
    ensures SetAll(f, fields) == Ok(f.(fields := f.fields + fields))
    decreases |fields|
  {
    hide Atoi, SplitActions;
    if fields == [] {
      assert f.fields + [] == f.fields;
    } else {
      var x := fields[0];
      assert !Reserved(x.name);
      var g := f.(fields := f.fields + [OvsField(x.name, x.value)]);
      SetFields(g, fields[1..]);
      assert g.fields + fields[1..] == f.fields + fields;
    }
  }

  lemma SetAllSplit(f: OvsFlow, x: OvsField, items: seq<OvsField>)
    ensures SetField(f, x.name, x.value).Ok? ==>
              SetAll(f, [x] + items) == SetAll(SetField(f, x.name, x.value).value, items)
  {
    assert ([x] + items)[1..] == items;
  }

  /** What the printer prints before the actions. */
  ghost function Items(f: OvsFlow): seq<OvsField>
    requires f.table >= 0 && f.priority >= 0
  {
    [CookieItem(f)] + MiddleItems(f)
  }

  lemma SetItems(f: OvsFlow)
    requires Printable(f)
    ensures SetAll(NoFlow, Items(f)) ==
            Ok(OvsFlow(f.table, if f.priority != DEFAULT_PRIORITY then f.priority else -1, f.cookie, f.fields, []))
  {
    hide Atoi, SplitActions, SetAll, Decimal, Plain;
    AtoiDecimal(f.table);
    AtoiDecimal(f.priority);
    var more := (if f.priority != DEFAULT_PRIORITY then [OvsField("priority", Decimal(f.priority))] else []) + f.fields;
    SetAllSplit(NoFlow, CookieItem(f), MiddleItems(f));
    var f1 := NoFlow.(cookie := f.cookie);
    SetAllSplit(f1, OvsField("table", Decimal(f.table)), more);
    var f2 := f1.(table := f.table);
    if f.priority != DEFAULT_PRIORITY {
      SetAllSplit(f2, OvsField("priority", Decimal(f.priority)), f.fields);
      SetFields(f2.(priority := f.priority), f.fields);
    } else {
      assert more == f.fields;
      SetFields(f2, f.fields);
    }
    assert [] + f.fields == f.fields;
  }

  lemma ItemsAreReadable(f: OvsFlow)
    requires Printable(f)
    ensures forall x | x in Items(f) :: Readable(x)
  {
    hide Plain, Consistent;
  }

  /** The printed text is the row of items before the actions. */
  lemma PrintIsRow(f: OvsFlow)
    requires Printable(f)
    ensures Join(f.actions) != "" && Print(f) == " " + Row(Items(f), ActionsText(f.actions))
  {
    hide MiddleItems, CookieItem, Plain, Consistent, FieldText, FieldsText, Row, JoinOnto, Print, ActionsText, Text;
    SplitJoined(f.actions, 0);
    forall a | a in f.actions ensures Text(a) != "" { StartIsPlain(a); }
    var tail, c, m := ActionsText(f.actions), CookieItem(f), MiddleItems(f);
    PrintText(f);
    RowIsPrinted(m, tail);
    RowCons(c, m, tail);
    Regroup(FieldText(c), FieldsText(m), ", ", tail, Row(m, tail));
  }

  lemma PrintText(f: OvsFlow)
    requires f.table >= 0 && f.priority >= 0 && f.cookie != "" && Join(f.actions) != "" && forall a | a in f.actions ::
        Text(a) != ""
    ensures Print(f) == " " + FieldText(CookieItem(f)) + FieldsText(MiddleItems(f)) + (", " + ActionsText(f.actions))
  {
    hide MiddleItems, FieldText, FieldsText, JoinOnto, Join, Text;
    JoinOntoIsJoin("", f.actions);
    CookieText(f.cookie);
    TailText(Join(f.actions));
    assert Join(f.actions) == JoinOnto("", f.actions) by { JoinOfNone(); }
  }

  lemma JoinOfNone()
    ensures Join([]) == ""
  {
  }

  lemma TailText(t: string)
    ensures ", actions=" + t == ", " + ("actions=" + t)
  {
  }

  lemma CookieText(cookie: string)
    requires cookie != ""
    ensures " cookie=" + cookie == " " + FieldText(OvsField("cookie", cookie))
  {
    assert " cookie=" + cookie == " " + ("cookie" + "=" + cookie);
  }

  lemma Regroup(c: string, m: string, sep: string, tail: string, row: string)
    requires m + sep + tail == sep + row
    ensures " " + c + m + (sep + tail) == " " + (c + sep + row)
  {
    assert m + (sep + tail) == sep + row;
    assert " " + c + m + (sep + tail) == (" " + c) + (m + (sep + tail));
  }

  lemma RowCons(x: OvsField, items: seq<OvsField>, tail: string)
    ensures Row([x] + items, tail) == FieldText(x) + ", " + Row(items, tail)
  {
    assert ([x] + items)[1..] == items;
  }

  /** Printing a flow and parsing the text for adding gives the flow back. */
  lemma RoundTrip(f: OvsFlow)
    requires Printable(f)
    ensures Parse(ForAdd, Print(f)) == Ok(f)
  {
    hide Plain, Row, FirstItem, SplitActions, SetField, Print, Consistent, HasSlash;
    PrintIsRow(f);
    var tail := ActionsText(f.actions);
    ItemsAreReadable(f);
    ParseRow(Items(f), tail, NoFlow);
    SetItems(f);
    var g := OvsFlow(f.table, if f.priority != DEFAULT_PRIORITY then f.priority else -1, f.cookie, f.fields, []);
    ParseTail(f, g);
    EndsPlain(f);
    TrimPrinted(Row(Items(f), tail));
    SameFields(g.(actions := f.actions), f);
  }

  lemma SameFields(g: OvsFlow, f: OvsFlow)
    requires g.fields == f.fields
    ensures (forall name :: FieldSet(g, name) == FieldSet(f, name)) && Consistent(g) == Consistent(f)
  {
  }

  /** The last field of the text is the actions. */
  lemma ParseTail(f: OvsFlow, g: OvsFlow)
    requires f.actions != [] && (forall a | a in f.actions :: Plain(a)) && Join(f.actions) != ""
    ensures ParseFrom("actions=" + Join(f.actions), g) == Ok(g.(actions := f.actions))
  {
    hide Plain, SplitActions, Join, TrimLeft, TrimRight, IndexOf;
    var tail := "actions=" + Join(f.actions);
    SplitJoined(f.actions, 0);
    assert tail[7] == '=' && tail[..7] == "actions" && tail[8..] == Join(f.actions);
    assert forall j | 0 <= j < 7 :: tail[j] == "actions"[j];
    IndexIs(tail, IsEquals, 7);
    SepAfter(tail, 7);
  }

  lemma SepAfter(s: string, n: nat)
    requires n < |s| && forall j | 0 <= j <= n :: !IsSep(s[j])
    ensures IndexOf(s, IsSep) > n
  {
    var i := IndexOf(s, IsSep);
    assert i < |s| ==> IsSep(s[i]);
  }

  lemma {:induction false} JoinEnds(actions: seq<OvsField>)
    requires actions != [] && forall a | a in actions :: Plain(a)
    ensures Join(actions) != "" && Join(actions)[|Join(actions)| - 1] != ' '
    decreases |actions|
  {
    if |actions| == 1 {
      var a := actions[0];
      assert Plain(a);
    } else {
      JoinEnds(actions[1..]);
    }
  }

  lemma {:induction false} RowEnds(items: seq<OvsField>, tail: string)
    requires tail != ""
    ensures Row(items, tail) != "" && Row(items, tail)[|Row(items, tail)| - 1] == tail[|tail| - 1]
    decreases |items|
  {
    if items != [] {
      RowEnds(items[1..], tail);
    }
  }

  lemma EndsPlain(f: OvsFlow)
    requires Printable(f)
    ensures var row := Row(Items(f), ActionsText(f.actions)); row != "" && row[|row| - 1] != ' '
  {
    hide Plain, Row, Consistent;
    JoinEnds(f.actions);
    RowEnds(Items(f), ActionsText(f.actions));
  }

  lemma TrimPrinted(row: string)
    requires row != "" && !IsSep(row[0]) && row[|row| - 1] != ' '
    ensures Trim(" " + row, IsBlank) == row
  {
    assert (" " + row)[1..] == row;
    assert TrimLeft(" " + row, IsBlank) == TrimLeft(row, IsBlank) == row;
  }
}
