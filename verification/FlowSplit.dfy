/** Where the parser of actions cuts, compared with the commas outside all
    brackets. */
module FlowSplit {
  import opened Wrappers
  import opened FlowText

  /** The split at every comma outside all brackets: each action is scanned from its start. */
  function ProperSplit(s: string): Result<seq<OvsField>, string>
    decreases |s|
  {
    CutIsComma(s, 0, 0, 0);
    match FindCut(s, 0, 0, 0)
    case Mismatch => Err("mismatched brackets in actions")
    case End(parens, braces) =>
      if parens > 0 || braces > 0 then Err("mismatched brackets in actions")
      else (match ActionToOvsField(s)
            case Err(e) => Err(e)
            case Ok(f) => Ok([f]))
    case At(i) =>
      match ActionToOvsField(s[..i])
      case Err(e) => Err(e)
      case Ok(f) =>
        if s[i + 1..] == "" then Ok([f])
        else match ProperSplit(s[i + 1..])
          case Err(e) => Err(e)
          case Ok(rest) => Ok([f] + rest)
  }

  /** As many brackets of each kind close before position `i` as open. */
  ghost predicate Outside(s: string, i: nat)
    requires i <= |s|
  {
    Net(s[..i], '(', ')') == 0 && Net(s[..i], '[', ']') == 0
  }

  /** No comma outside all brackets is directly followed by a bracket or a comma. */
  ghost predicate Separated(s: string) {
    forall i {:trigger s[i]} | 0 <= i && i + 1 < |s| && s[i] == ',' && Outside(s, i) :: !IsToken(s[i + 1])
  }

  lemma {:induction false} NetConcat(a: string, b: string, open: char, close: char)
    ensures Net(a + b, open, close) == Net(a, open, close) + Net(b, open, close)
    decreases |a|
  {
    if a == "" {
      assert a + b == b;
    } else {
      NetConcat(a[1..], b, open, close);
      assert (a + b)[1..] == a[1..] + b;
    }
  }

  /** The scan passes no comma outside all brackets. */
  lemma {:induction false} NoEarlierComma(s: string, i: nat, parens: nat, braces: nat, j: nat)
    requires i <= j < |s| && s[j] == ',' && FindCut(s, i, parens, braces) != Mismatch
    requires FindCut(s, i, parens, braces).At? ==> j < FindCut(s, i, parens, braces).i
    ensures parens + Net(s[i..j], '(', ')') != 0 || braces + Net(s[i..j], '[', ']') != 0
    decreases j - i
  {
    if i == j {
      assert s[i..j] == "";
    } else {
      assert s[i..j][0] == s[i] && s[i..j][1..] == s[i + 1..j];
      match s[i]
      case '(' => NoEarlierComma(s, i + 1, parens + 1, braces, j);
      case '[' => NoEarlierComma(s, i + 1, parens, braces + 1, j);
      case ')' => NoEarlierComma(s, i + 1, parens - 1, braces, j);
      case ']' => NoEarlierComma(s, i + 1, parens, braces - 1, j);
      case _ => NoEarlierComma(s, i + 1, parens, braces, j);
    }
  }

  lemma EndIsSeparated(s: string)
    requires FindCut(s, 0, 0, 0).End?
    ensures Separated(s)
  {
    hide FindCut, Net;
    forall i | 0 <= i < |s| && s[i] == ',' ensures !Outside(s, i) {
      NoEarlierComma(s, 0, 0, 0, i);
      assert s[0..i] == s[..i];
    }
  }

  /** Positions after a cut are outside the brackets of the text iff they are outside those of the rest. */
  lemma OutsideRest(s: string, i: nat, j: nat)
    requires i < |s| && s[i] == ',' && Outside(s, i) && i + 1 + j <= |s|
    ensures Outside(s, i + 1 + j) <==> Outside(s[i + 1..], j)
  {
    hide Net;
    forall open: char, close: char | open != ',' && close != ','
      ensures Net(s[..i + 1 + j], open, close) == Net(s[..i], open, close) + Net(s[i + 1..][..j], open, close)
    {
      assert s[..i + 1 + j] == s[..i] + ("," + s[i + 1..][..j]);
      NetConcat(s[..i], "," + s[i + 1..][..j], open, close);
      NetComma(s[i + 1..][..j], open, close);
    }
  }

  lemma NetComma(t: string, open: char, close: char)
    requires open != ',' && close != ','
    ensures Net("," + t, open, close) == Net(t, open, close)
  {
    assert ("," + t)[1..] == t;
  }

  /** A text is separated iff its first cut is, and what follows it. */
  lemma SeparatedStep(s: string, i: nat)
    requires FindCut(s, 0, 0, 0) == At(i)
    ensures i < |s| && s[i] == ','
    ensures Separated(s) <==> (i + 1 < |s| ==> !IsToken(s[i + 1])) && Separated(s[i + 1..])
  {
    hide FindCut, Net, Outside, IsToken;
    CutIsOutside(s, 0, 0, 0);
    assert Outside(s, i) by { CutOutside(s, i); }
    var rest := s[i + 1..];
    forall j | 0 <= j <= |rest| ensures Outside(s, i + 1 + j) <==> Outside(rest, j) { OutsideRest(s, i, j); }
    if Separated(s) {
      forall j | 0 <= j && j + 1 < |rest| && rest[j] == ',' && Outside(rest, j) ensures !IsToken(rest[j + 1]) {
        assert s[i + 1 + j] == ',';
      }
    }
    if (i + 1 < |s| ==> !IsToken(s[i + 1])) && Separated(rest) {
      forall k | 0 <= k && k + 1 < |s| && s[k] == ',' && Outside(s, k) ensures !IsToken(s[k + 1]) {
        if k < i {
          NotBefore(s, i, k);
        } else if k > i {
          assert rest[k - i - 1] == ',';
        }
      }
    }
  }

  lemma CutOutside(s: string, i: nat)
    requires FindCut(s, 0, 0, 0) == At(i) && i < |s|
    ensures Outside(s, i)
  {
    hide FindCut, Net;
    CutIsOutside(s, 0, 0, 0);
    assert s[0..i] == s[..i];
  }

  lemma NotBefore(s: string, i: nat, k: nat)
    requires FindCut(s, 0, 0, 0) == At(i) && k < i < |s| && s[k] == ','
    ensures !Outside(s, k)
  {
    hide FindCut, Net;
    NoEarlierComma(s, 0, 0, 0, k);
    assert s[0..k] == s[..k];
  }

  /** From the start of a text the scan finds the first comma outside all brackets. */
  lemma CutIsFirst(s: string, i: nat)
    requires FindCut(s, 0, 0, 0) == At(i)
    ensures i < |s| && s[i] == ',' && Outside(s, i)
    ensures forall k | 0 <= k < i && s[k] == ',' :: !Outside(s, k)
  {
    hide FindCut, Net, Outside;
    CutIsComma(s, 0, 0, 0);
    CutOutside(s, i);
    forall k | 0 <= k < i && s[k] == ',' ensures !Outside(s, k) { NotBefore(s, i, k); }
  }

  /** A scan that starts behind a character that is no bracket and no comma misses nothing. */
  lemma SameScan(s: string)
    requires s != "" && !IsToken(s[0])
    ensures SplitActions(s, 1) == SplitActions(s, 0)
  {
    hide FindCut, ActionToOvsField;
    SkipPlain(s, 0, 1, 0, 0);
  }

  /** On a separated text the parser makes the proper split, or the same error. */
  lemma {:induction false} SeparatedIsSplitProperly(s: string)
    requires Separated(s)
    ensures SplitActions(s, 0) == ProperSplit(s)
    decreases |s|
  {
    hide FindCut, ActionToOvsField, Separated;
    if FindCut(s, 0, 0, 0).At? {
      var i := FindCut(s, 0, 0, 0).i;
      SeparatedStep(s, i);
      if s[i + 1..] != "" {
        SeparatedIsSplitProperly(s[i + 1..]);
        SameScan(s[i + 1..]);
      }
    }
  }

  // ---- texts that are not separated ------------------------------------------------

  /** With more brackets open, the scan passes the comma at which it would have stopped. */
  lemma {:induction false} DeeperScan(s: string, i: nat, parens: nat, braces: nat, dp: nat, db: nat)
    requires i <= |s| && dp + db > 0
    ensures var c, d := FindCut(s, i, parens, braces), FindCut(s, i, parens + dp, braces + db);
            && (c == End(0, 0) ==> d == End(dp, db))
            && (c.At? ==> i <= c.i < |s| && s[c.i] == ',' && d == FindCut(s, c.i + 1, dp, db))
    decreases |s| - i
  {
    CutIsComma(s, i, parens, braces);
    if i < |s| && !(s[i] == ',' && parens == 0 && braces == 0) {
      match s[i]
      case '(' => DeeperScan(s, i + 1, parens + 1, braces, dp, db);
      case '[' => DeeperScan(s, i + 1, parens, braces + 1, dp, db);
      case ')' => if parens > 0 { DeeperScan(s, i + 1, parens - 1, braces, dp, db); }
      case ']' => if braces > 0 { DeeperScan(s, i + 1, parens, braces - 1, dp, db); }
      case _ => DeeperScan(s, i + 1, parens, braces, dp, db);
    }
  }

  predicate Closes(c: char) {
    c == ')' || c == ']'
  }

  /** Where an open bracket has been closed again, a closing bracket has been passed. */
  lemma {:induction false} ClosedBefore(s: string, i: nat, parens: nat, braces: nat) returns (j: nat)
    requires i <= |s| && parens + braces > 0
    requires var c := FindCut(s, i, parens, braces); c.At? || c == End(0, 0)
    ensures var c := FindCut(s, i, parens, braces); i <= j < (if c.At? then c.i else |s|) <= |s| && Closes(s[j])
    decreases |s| - i
  {
    CutIsComma(s, i, parens, braces);
    match s[i]
    case '(' => j := ClosedBefore(s, i + 1, parens + 1, braces);
    case '[' => j := ClosedBefore(s, i + 1, parens, braces + 1);
    case ')' => j := i; CutIsComma(s, i + 1, parens - 1, braces);
    case ']' => j := i; CutIsComma(s, i + 1, parens, braces - 1);
    case _ => j := ClosedBefore(s, i + 1, parens, braces);
  }

  lemma {:induction false} TrimRightKeeps(s: string, p: char -> bool, m: nat)
    requires m < |s| && !p(s[m])
    ensures |TrimRight(s, p)| > m
    decreases |s|
  {
    if p(s[|s| - 1]) {
      TrimRightKeeps(s[..|s| - 1], p, m);
    }
  }

  /** A text that goes on with something not trimmed is longer after trimming. */
  lemma {:induction false} TrimGrows(s: string, n: nat, m: nat, p: char -> bool)
    requires n <= m < |s| && !p(s[m])
    ensures |Trim(s[..n], p)| < |Trim(s, p)|
    decreases |s|
  {
    if p(s[0]) {
      if n == 0 {
        TrimGrows(s[1..], 0, m - 1, p);
        assert s[1..][..0] == s[..0];
      } else {
        TrimGrows(s[1..], n - 1, m - 1, p);
        assert s[..n][1..] == s[1..][..n - 1];
      }
    } else {
      TrimRightKeeps(s, p, m);
      if n > 0 { assert s[..n][0] == s[0]; }
    }
  }

  /** Texts that differ by a comma and a closing bracket are different actions. */
  lemma LongerActionDiffers(t: string, c: nat, j: nat)
    requires c < j < |t| && t[c] == ',' && Closes(t[j])
    ensures ActionToOvsField(t[..c]).Ok? && ActionToOvsField(t).Ok? ==>
              ActionToOvsField(t[..c]).value != ActionToOvsField(t).value
  {
    hide Trim, IndexOf;
    var a := t[..c];
    var k, l := IndexOf(a, StartsValue), IndexOf(t, StartsValue);
    FirstStart(t, c);
    if k < c {
      assert a[k..] == t[k..][..c - k];
      TrimGrows(t[k..], c - k, j - k, IsColonOrBlank);
    } else if l == |t| {
      TrimGrows(t, c, c, IsSpace);
    } else {
      assert t[..l][..c] == a;
      TrimGrows(t[..l], c, c, IsSpace);
    }
  }

  lemma FirstStart(t: string, c: nat)
    requires c < |t| && t[c] == ','
    ensures var k, l := IndexOf(t[..c], StartsValue), IndexOf(t, StartsValue);
            k <= c && l <= |t| && if k < c then l == k else l > c
  {
    var k := IndexOf(t[..c], StartsValue);
    if k < c {
      IndexIs(t, StartsValue, k);
    } else {
      assert forall j | 0 <= j < c :: t[j] == t[..c][j];
      var l := IndexOf(t, StartsValue);
      assert l < |t| ==> StartsValue(t[l]);
    }
  }

  /** Where a rest starts with a bracket or comma, skipping that character gives another result. */
  lemma SkippedTokenShows(s: string)
    requires s != "" && IsToken(s[0]) && SplitActions(s, 1).Ok?
    ensures ProperSplit(s) != SplitActions(s, 1)
  {
    hide ActionToOvsField, FindCut;
    CutStep(s, 0, 0, 0);
    TokenIs(s[0]);
    if s[0] == '(' {
      SkippedBracketShows(s, 1, 0);
    } else if s[0] == '[' {
      SkippedBracketShows(s, 0, 1);
    } else if s[0] == ',' {
      assert s[..0] == "";
      EmptyIsNoAction();
    }
  }

  lemma EmptyIsNoAction()
    ensures ActionToOvsField("").Err?
  {
  }

  lemma SkippedBracketShows(s: string, dp: nat, db: nat)
    requires s != "" && SplitActions(s, 1).Ok? && dp + db > 0
    requires FindCut(s, 0, 0, 0) == FindCut(s, 1, dp, db)
    ensures ProperSplit(s) != SplitActions(s, 1)
  {
    hide ActionToOvsField, FindCut;
    DeeperScan(s, 1, 0, 0, dp, db);
    var cut, proper := FindCut(s, 1, 0, 0), FindCut(s, 0, 0, 0);
    CutIsComma(s, 0, 0, 0);
    if cut.At? && ProperSplit(s).Ok? {
      var c := cut.i;
      var j := ClosedBefore(s, c + 1, dp, db);
      var d := if proper.At? then proper.i else |s|;
      assert s[..d][..c] == s[..c];
      assert proper.End? ==> s[..d] == s;
      LongerActionDiffers(s[..d], c, j);
      FirstOfSplit(s);
    }
  }

  /** The first field of each split is the first action of its text. */
  lemma FirstOfSplit(s: string)
    requires s != "" && SplitActions(s, 1).Ok? && ProperSplit(s).Ok? && FindCut(s, 1, 0, 0).At?
    ensures var c := FindCut(s, 1, 0, 0).i;
            c < |s| && ActionToOvsField(s[..c]).Ok? && SplitActions(s, 1).value != []
            && SplitActions(s, 1).value[0] == ActionToOvsField(s[..c]).value
    ensures var p := FindCut(s, 0, 0, 0);
            && (p.At? ==> p.i < |s|) && !p.Mismatch?
            && var t := if p.At? then s[..p.i] else s;
               ActionToOvsField(t).Ok? && ProperSplit(s).value != []
               && ProperSplit(s).value[0] == ActionToOvsField(t).value
  {
    hide ActionToOvsField, FindCut;
    CutIsComma(s, 1, 0, 0);
    CutIsComma(s, 0, 0, 0);
  }

  /** Both splits put the first action before the split of the rest. */
  lemma SplitAt(s: string, from: nat, i: nat, f: OvsField)
    requires from <= |s| && FindCut(s, from, 0, 0) == At(i) && i < |s|
    requires ActionToOvsField(s[..i]) == Ok(f) && s[i + 1..] != ""
    ensures SplitActions(s, from) == Prepend([f], SplitActions(s[i + 1..], 1))
    ensures from == 0 ==> ProperSplit(s) == Prepend([f], ProperSplit(s[i + 1..]))
  {
    hide FindCut, ActionToOvsField;
  }

  lemma PrependDiffers(f: OvsField, x: Result<seq<OvsField>, string>, y: Result<seq<OvsField>, string>)
    requires x.Ok? && x != y
    ensures Prepend([f], x) != Prepend([f], y)
  {
    if y.Ok? {
      assert ([f] + x.value)[1..] == x.value && ([f] + y.value)[1..] == y.value;
    }
  }

  /** A text that the parser accepts is split properly exactly when it is separated. */
  lemma {:induction false} SplitIsProperIff(s: string)
    requires SplitActions(s, 0).Ok?
    ensures SplitActions(s, 0) == ProperSplit(s) <==> Separated(s)
    decreases |s|
  {
    hide FindCut, ActionToOvsField, Separated, IsToken;
    if Separated(s) {
      SeparatedIsSplitProperly(s);
    } else if FindCut(s, 0, 0, 0).End? {
      EndIsSeparated(s);
    } else {
      var i := FindCut(s, 0, 0, 0).i;
      SeparatedStep(s, i);
      var rest := s[i + 1..];
      if rest == "" {
        EmptyIsSeparated();
      } else {
        var f := ActionToOvsField(s[..i]).value;
        SplitAt(s, 0, i, f);
        if IsToken(rest[0]) {
          SkippedTokenShows(rest);
        } else {
          SameScan(rest);
          SplitIsProperIff(rest);
        }
        PrependDiffers(f, SplitActions(rest, 1), ProperSplit(rest));
      }
    }
  }

  lemma EmptyIsSeparated()
    ensures Separated("")
  {
  }

  /** A balanced text cut at a comma inside its parentheses. */
  lemma CutInsideBrackets()
    ensures SplitActions("a,(b,),c", 0) ==
              Ok([OvsField("a", ""), OvsField("", "(b"), OvsField(")", ""), OvsField("c", "")])
    ensures ProperSplit("a,(b,),c") == Ok([OvsField("a", ""), OvsField("", "(b,)"), OvsField("c", "")])
  {
    hide ActionToOvsField, SplitActions, ProperSplit;
    var s, t, u := "a,(b,),c", "(b,),c", "),c";
    var a, b, d, c := OvsField("a", ""), OvsField("", "(b"), OvsField(")", ""), OvsField("c", "");
    CutsOfBalanced();
    ActionsOfBalanced();
    assert s[..1] == "a" && s[2..] == t && t[..2] == "(b" && t[3..] == u;
    assert t[..4] == "(b,)" && t[5..] == "c" && u[..1] == ")" && u[2..] == "c";
    SplitAt(s, 0, 1, a);
    SplitAt(t, 1, 2, b);
    SplitAt(u, 1, 1, d);
    SplitAt(t, 0, 4, OvsField("", "(b,)"));
    SplitEnd("c", 1, c);
    SplitEnd("c", 0, c);
    assert [a] + ([b] + ([d] + [c])) == [a, b, d, c];
    assert [a] + ([OvsField("", "(b,)")] + [c]) == [a, OvsField("", "(b,)"), c];
  }

  lemma CutsOfBalanced()
    ensures FindCut("a,(b,),c", 0, 0, 0) == At(1)
    ensures FindCut("(b,),c", 1, 0, 0) == At(2) && FindCut("),c", 1, 0, 0) == At(1)
    ensures FindCut("(b,),c", 0, 0, 0) == At(4) && FindCut("c", 0, 0, 0) == End(0, 0)
    ensures FindCut("c", 1, 0, 0) == End(0, 0)
  {
  }

  lemma SplitEnd(s: string, from: nat, f: OvsField)
    requires from <= |s| && FindCut(s, from, 0, 0) == End(0, 0) && ActionToOvsField(s) == Ok(f)
    ensures SplitActions(s, from) == Ok([f]) && (from == 0 ==> ProperSplit(s) == Ok([f]))
  {
    hide FindCut, ActionToOvsField;
  }

  lemma ActionsOfBalanced()
    ensures ActionToOvsField("a") == Ok(OvsField("a", "")) && ActionToOvsField("c") == Ok(OvsField("c", ""))
    ensures ActionToOvsField("(b") == Ok(OvsField("", "(b")) && ActionToOvsField(")") == Ok(OvsField(")", ""))
    ensures ActionToOvsField("(b,)") == Ok(OvsField("", "(b,)"))
  {
    assert "(b"[..0] == "" && "(b"[0..] == "(b" && "(b,)"[..0] == "" && "(b,)"[0..] == "(b,)";
    IndexIs("a", StartsValue, 1);
    IndexIs("c", StartsValue, 1);
    IndexIs(")", StartsValue, 1);
    IndexIs("(b", StartsValue, 0);
    IndexIs("(b,)", StartsValue, 0);
    TrimClean("(b", IsColonOrBlank);
    TrimClean("(b,)", IsColonOrBlank);
  }

  /** Brackets that do not balance are accepted behind a cut. */
  lemma UnbalancedIsAccepted()
    ensures SplitActions("a,(b", 0) == Ok([OvsField("a", ""), OvsField("", "(b")]) && ProperSplit("a,(b").Err?
  {
    hide ActionToOvsField, SplitActions, ProperSplit;
    var s, t := "a,(b", "(b";
    assert FindCut(s, 0, 0, 0) == At(1) && FindCut(t, 1, 0, 0) == End(0, 0) && FindCut(t, 0, 0, 0) == End(1, 0);
    assert s[..1] == "a" && s[2..] == t;
    ActionsOfBalanced();
    SplitAt(s, 0, 1, OvsField("a", ""));
    SplitEnd(t, 1, OvsField("", "(b"));
    OpenIsNoSplit(t);
    assert [OvsField("a", "")] + [OvsField("", "(b")] == [OvsField("a", ""), OvsField("", "(b")];
  }

  lemma OpenIsNoSplit(s: string)
    requires FindCut(s, 0, 0, 0) == End(1, 0)
    ensures ProperSplit(s).Err?
  {
    hide FindCut, ActionToOvsField;
  }
}
