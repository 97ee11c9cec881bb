/**
 * The check that recognises the welcome message on joining DiamondFire, and on receiving it
 * scans the scoreboard lines for the node the player is on to tell whether it is the beta node.
 */
module JoinDiamondFireCheck {
  import opened Wrappers
  import opened ChatMessage
  import opened JavaStrings

  /** The section sign that starts a Minecraft formatting code. */
  const FormattingCode: char := '\U{00A7}'

  const Welcome: string := "◆ Welcome back to DiamondFire! ◆"
  /** The scoreboard line naming the node starts with this. */
  const NodePrefix: string := "§aNode "
  /** "Beta" followed by the formatting code for dark gray (the section sign, then the digit eight). */
  const BetaNode: string := "Beta" + [FormattingCode, '8']

  /** The mode of the current state; the modes other than spawn play no part here. */
  datatype Mode = Spawn | OtherMode(name: string)

  /** The `DFInfo.isInBeta` flag. */
  class DFInfo {
    var isInBeta: bool

    constructor ()
      ensures !isInBeta
    {
      isInBeta := false;
    }
  }

  function GetType(): (t: MessageType)
    ensures t == JoinDiamondFire
  {
    JoinDiamondFire
  }

  /** The message matches exactly when the player is at spawn and its text is the welcome text. */
  function Check(mode: Mode, stripped: string): (b: bool)
    ensures b <==> mode == Spawn && stripped == Welcome
  {
    mode == Spawn && stripped == Welcome
  }

  /**
   * What evaluating `line.startsWith(NodePrefix) && line.split(" ")[1].equals(BetaNode)` gives:
   * None when `split(" ")[1]` throws ArrayIndexOutOfBoundsException.
   */
  function NodeLineTest(line: string): Option<bool>
  {
    if !StartsWith(line, NodePrefix) then Some(false)
    else
      var parts := Split(line, ' ');
      if |parts| > 1 then Some(parts[1] == BetaNode) else None
  }

  /** Some scoreboard line passes the test. */
  predicate ReportsBeta(lines: seq<string>)
  {
    AnyPasses(lines, NodeLineTest)
  }

  /** The lines that name the beta node, written without `split`. */
  predicate NamesBetaNode(line: string)
  {
    line == NodePrefix + BetaNode || StartsWith(line, NodePrefix + BetaNode + " ")
  }

  /**
   * `onReceive`: clears the flag, then sets it for every scoreboard line that names the beta
   * node. A line for which `split(" ")[1]` throws is skipped.
   */
  method OnReceive(info: DFInfo, lines: seq<string>)
    modifies info
    ensures info.isInBeta == ReportsBeta(lines)
    ensures info.isInBeta <==> exists k :: 0 <= k < |lines| && NamesBetaNode(lines[k])
  {
    info.isInBeta := false;
    for i := 0 to |lines|
      invariant info.isInBeta == ReportsBeta(lines[..i])
    {
      var hit := TestLine(lines[i]);
      AnyPassesExtend(lines, i, NodeLineTest);
      if hit {
        info.isInBeta := true;
      }
    }
    assert lines[..|lines|] == lines;
    ReportsBetaMeansBetaNode(lines);
  }

  /** Some line passes `test`. */
  predicate AnyPasses(lines: seq<string>, test: string -> Option<bool>)
  {
    exists k :: 0 <= k < |lines| && test(lines[k]) == Some(true)
  }

  /** One more line: some line passes `test` when an earlier one did or the new one does. */
  lemma AnyPassesExtend(lines: seq<string>, i: nat, test: string -> Option<bool>)
    requires i < |lines|
    ensures AnyPasses(lines[..i + 1], test) <==> AnyPasses(lines[..i], test) || test(lines[i]) == Some(true)
  {
    var init, next := lines[..i], lines[..i + 1];
    assert forall k :: 0 <= k < i ==> next[k] == init[k];
    assert next[i] == lines[i];
  }

  /**
   * The body of the loop for one line: whether it sets the flag. A line whose `split(" ")` has no
   * second field is caught and answers false.
   */
  method TestLine(line: string) returns (hit: bool)
    ensures hit <==> NodeLineTest(line) == Some(true)
    ensures hit ==> StartsWith(line, NodePrefix)
  {
    hit := false;
    if StartsWith(line, NodePrefix) {
      var parts := Split(line, ' ');
      if |parts| > 1 {
        hit := parts[1] == BetaNode;
      }
    }
  }

  /** After the prefix, `split(" ")` gives the prefix's word, then the fields of the rest of the line. */
  lemma SplitAfterPrefix(rest: string)
    ensures Split(NodePrefix + rest, ' ') == ["§aNode"] + DropTrailingEmpty(Fields(rest, ' '))
  {
    var word := "§aNode";
    assert ' ' !in word;
    assert NodePrefix + rest == word + [' '] + rest;
    FieldsAfterWord(word, ' ', rest);
    DropTrailingEmptyCons(word, Fields(rest, ' '));
  }

  /** For a line with the prefix, the test passes exactly when the first field after the prefix is the beta node. */
  lemma TestAfterPrefix(rest: string)
    ensures NodeLineTest(NodePrefix + rest) == Some(true) <==> Fields(rest, ' ')[0] == BetaNode
  {
    var line := NodePrefix + rest;
    assert StartsWith(line, NodePrefix) by {
      assert line[..|NodePrefix|] == NodePrefix;
    }
    SplitAfterPrefix(rest);
    var fields := Fields(rest, ' ');
    if fields[0] == BetaNode {
      assert DropTrailingEmpty(fields) != [];
    }
  }

  /** For a line with the prefix, it names the beta node exactly when the rest does. */
  lemma NamesAfterPrefix(rest: string)
    ensures NamesBetaNode(NodePrefix + rest) <==> rest == BetaNode || StartsWith(rest, BetaNode + " ")
  {
    var line := NodePrefix + rest;
    var p := |NodePrefix|;
    assert line[p..] == rest;
    if StartsWith(line, NodePrefix + BetaNode + " ") {
      assert rest[..|BetaNode| + 1] == line[p..p + |BetaNode| + 1];
    }
    if StartsWith(rest, BetaNode + " ") {
      assert line[..p + |BetaNode| + 1] == NodePrefix + rest[..|BetaNode| + 1];
    }
  }

  /** After the prefix, split's second field is the second word: the test asks for exactly that word. */
  lemma NodeLineTestMeansBetaNode(line: string)
    ensures NodeLineTest(line) == Some(true) <==> NamesBetaNode(line)
  {
    if StartsWith(line, NodePrefix) {
      var rest := line[|NodePrefix|..];
      assert line == NodePrefix + rest;
      TestAfterPrefix(rest);
      NamesAfterPrefix(rest);
      FirstWordIsBetaNode(rest);
    } else {
      assert (NodePrefix + BetaNode)[..|NodePrefix|] == NodePrefix;
      assert (NodePrefix + BetaNode + " ")[..|NodePrefix|] == NodePrefix;
    }
  }

  /** The first space-separated field of rest is the beta node's name exactly when rest names it alone or first. */
  lemma FirstWordIsBetaNode(rest: string)
    ensures Fields(rest, ' ')[0] == BetaNode <==> rest == BetaNode || StartsWith(rest, BetaNode + " ")
  {
    FirstField(rest, ' ');
    if ' ' in rest {
      var i := Find(rest, ' ');
      assert ' ' !in BetaNode;
      FirstWordBeforeSpace(rest, i);
    } else if |rest| > |BetaNode| {
      assert rest[|BetaNode|] in rest;
      assert (BetaNode + " ")[|BetaNode|] == ' ';
    }
  }

  /** When the first space is at i, the word before it is the beta node exactly when rest starts with it and a space. */
  lemma FirstWordBeforeSpace(rest: string, i: nat)
    requires i < |rest| && rest[i] == ' ' && ' ' !in rest[..i]
    ensures rest[..i] == BetaNode <==> StartsWith(rest, BetaNode + " ")
  {
    var n := |BetaNode|;
    if rest[..i] == BetaNode {
      assert rest[..n + 1] == rest[..i] + [rest[i]];
    }
    if StartsWith(rest, BetaNode + " ") {
      assert rest[..n] == rest[..n + 1][..n] == BetaNode;
      assert rest[n] == ' ';
      if i < n {
        assert false;
      } else if i > n {
        assert false;
      }
    }
  }

  /** The flag the scan computes is set by exactly the lines that name the beta node. */
  lemma ReportsBetaMeansBetaNode(lines: seq<string>)
    ensures ReportsBeta(lines) <==> exists k :: 0 <= k < |lines| && NamesBetaNode(lines[k])
  {
    forall k | 0 <= k < |lines| ensures NodeLineTest(lines[k]) == Some(true) <==> NamesBetaNode(lines[k]) {
      NodeLineTestMeansBetaNode(lines[k]);
    }
  }

  /** A line that is the prefix alone has no second field: the test throws and the line is skipped. */
  lemma PrefixAloneIsSkipped()
    ensures Split(NodePrefix, ' ') == ["§aNode"]
    ensures NodeLineTest(NodePrefix) == None
  {
    var word := "§aNode";
    assert NodePrefix == word + [' '] + [];
    FieldsAfterWord(word, ' ', []);
    assert Fields([], ' ') == [[]];
    DropTrailingEmptyCons(word, [[]]);
  }

  /** The flag does not depend on the order in which the scoreboard yields its lines. */
  lemma ReportsBetaIgnoresOrder(lines: seq<string>, reordered: seq<string>)
    requires multiset(lines) == multiset(reordered)
    ensures ReportsBeta(lines) == ReportsBeta(reordered)
  {
    if ReportsBeta(lines) {
      var k :| 0 <= k < |lines| && NodeLineTest(lines[k]) == Some(true);
      assert lines[k] in multiset(reordered);
      var m :| 0 <= m < |reordered| && reordered[m] == lines[k];
    }
    if ReportsBeta(reordered) {
      var k :| 0 <= k < |reordered| && NodeLineTest(reordered[k]) == Some(true);
      assert reordered[k] in multiset(lines);
      var m :| 0 <= m < |lines| && lines[m] == reordered[k];
    }
  }
}
