/** The command-argument parser: the tokens before the first `--` token form
    the body, and every `--key` token takes the non-flag tokens after it as
    its value. */
module FlagParsing {

  /** `startsWith("--")`. */
  predicate IsFlag(token: string)
  {
    |token| >= 2 && token[0] == '-' && token[1] == '-'
  }

  /** `Array.prototype.join(" ")`. */
  function Join(words: seq<string>): string
  {
    if |words| == 0 then ""
    else if |words| == 1 then words[0]
    else words[0] + " " + Join(words[1..])
  }

  /** The first index at or after `i` that holds a flag, or the end. */
  function NextFlag(args: seq<string>, i: nat): (j: nat)
    requires i <= |args|
    ensures i <= j <= |args|
    ensures forall k :: i <= k < j ==> !IsFlag(args[k])
    ensures j < |args| ==> IsFlag(args[j])
    decreases |args| - i
  {
    if i == |args| || IsFlag(args[i]) then i else NextFlag(args, i + 1)
  }

  /** `NextFlag` is the first flag index: any `j` with no flag in `[i, j)`
      and a flag (or the end) at `j` is it. */
  lemma {:induction false} NextFlagAt(args: seq<string>, i: nat, j: nat)
    requires i <= j <= |args|
    requires forall t :: i <= t < j ==> !IsFlag(args[t])
    requires j < |args| ==> IsFlag(args[j])
    ensures NextFlag(args, i) == j
    decreases j - i
  {
    if i < j {
      NextFlagAt(args, i + 1, j);
    }
  }

  /** One `--key` token and the value tokens that follow it. */
  datatype Group = Group(key: string, values: seq<string>)

  /** The flag groups from the flag at `i` to the end. */
  function Groups(args: seq<string>, i: nat): seq<Group>
    requires i <= |args|
    requires i < |args| ==> IsFlag(args[i])
    decreases |args| - i
  {
    if i == |args| then []
    else
      var j := NextFlag(args, i + 1);
      [Group(args[i][2..], args[i + 1..j])] + Groups(args, j)
  }

  /** Writing the groups into the result object, first to last. */
  function Apply(gs: seq<Group>, m: map<string, string>): map<string, string>
  {
    if gs == [] then m else Apply(gs[1..], m[gs[0].key := Join(gs[0].values)])
  }

  /** The flag loop from the flag at `i`: each flag writes its key, then
      the loop moves on to the next flag. */
  function ParseFlags(args: seq<string>, i: nat, m: map<string, string>): (r: map<string, string>)
    requires i <= |args|
    requires i < |args| ==> IsFlag(args[i])
    ensures m.Keys <= r.Keys
    decreases |args| - i
  {
    if i == |args| then m
    else
      var j := NextFlag(args, i + 1);
      ParseFlags(args, j, m[args[i][2..] := Join(args[i + 1..j])])
  }

  /** What `FlagParser.parse` returns. */
  function ParseSpec(args: seq<string>): (r: map<string, string>)
    ensures "_body" in r
  {
    var k := NextFlag(args, 0);
    ParseFlags(args, k, map["_body" := Join(args[..k])])
  }

  /** The scan both loops of `FlagParser.parse` perform: push tokens from
      `from` on until a flag or the end. */
  method TakeValues(args: seq<string>, from: nat) returns (values: seq<string>, next: nat)
    requires from <= |args|
    ensures next == NextFlag(args, from)
    ensures values == args[from..next]
  {
    next := from;
    values := [];
    while next < |args| && !IsFlag(args[next])
      invariant from <= next <= |args|
      invariant forall t :: from <= t < next ==> !IsFlag(args[t])
      invariant values == args[from..next]
    {
      values := values + [args[next]];
      next := next + 1;
    }
    NextFlagAt(args, from, next);
  }

  /** `FlagParser.parse`. */
  method Parse(args: seq<string>) returns (flagData: map<string, string>)
    ensures flagData == ParseSpec(args)
  {
    flagData := map[];
    var body, i := TakeValues(args, 0);
    assert body == args[..i];
    flagData := flagData["_body" := Join(body)];

    while i < |args|
      invariant 0 <= i <= |args|
      invariant i < |args| ==> IsFlag(args[i])
      invariant ParseFlags(args, i, flagData) == ParseSpec(args)
      decreases |args| - i
    {
      if IsFlag(args[i]) {
        var key := args[i][2..];
        var values;
        values, i := TakeValues(args, i + 1);
        flagData := flagData[key := Join(values)];
        i := i - 1;
      }
      i := i + 1;
    }
  }

  /** The flag loop is the same as writing the flag groups in order. */
  lemma {:induction false} ParseFlagsGroups(args: seq<string>, i: nat, m: map<string, string>)
    requires i <= |args|
    requires i < |args| ==> IsFlag(args[i])
    ensures ParseFlags(args, i, m) == Apply(Groups(args, i), m)
    decreases |args| - i
  {
    if i < |args| {
      var j := NextFlag(args, i + 1);
      var gs := Groups(args, i);
      assert gs[1..] == Groups(args, j);
      ParseFlagsGroups(args, j, m[args[i][2..] := Join(args[i + 1..j])]);
    }
  }

  /** Index of the last group with key `k`, or -1. */
  function LastIndex(gs: seq<Group>, k: string): (r: int)
    ensures -1 <= r < |gs|
    ensures r >= 0 ==> gs[r].key == k
    ensures forall j :: r < j < |gs| ==> gs[j].key != k
  {
    if gs == [] then -1
    else if gs[|gs| - 1].key == k then |gs| - 1
    else LastIndex(gs[..|gs| - 1], k)
  }

  /** Seen from the front: the last occurrence in `g + rest` is the last one
      in `rest` when there is one, else `g` itself when it has the key. */
  lemma LastIndexCons(gs: seq<Group>, k: string)
    requires gs != []
    ensures var l, l' := LastIndex(gs, k), LastIndex(gs[1..], k);
      && (l' >= 0 ==> l == l' + 1)
      && (l' < 0 ==> l == (if gs[0].key == k then 0 else -1))
  {
    var l, l' := LastIndex(gs, k), LastIndex(gs[1..], k);
    if l' >= 0 {
      assert gs[1..][l'] == gs[l' + 1];
    }
  }

  /** A key ends up in the result exactly when it was there before or some
      group has it; its value is that of the LAST group with the key, and a
      key no group has keeps its old value. */
  lemma {:induction false} ApplyAt(gs: seq<Group>, m: map<string, string>, k: string)
    ensures var r, l := Apply(gs, m), LastIndex(gs, k);
      && (k in r <==> k in m || l >= 0)
      && (l >= 0 ==> r[k] == Join(gs[l].values))
      && (l < 0 && k in m ==> r[k] == m[k])
  {
    if gs != [] {
      var m' := m[gs[0].key := Join(gs[0].values)];
      ApplyAt(gs[1..], m', k);
      LastIndexCons(gs, k);
    }
  }

  /** The body is the tokens before the first flag, joined by spaces, unless
      a `--_body` flag overwrites it; with no flag at all the result is the
      body alone, holding every token. */
  lemma BodySpec(args: seq<string>)
    ensures var k := NextFlag(args, 0); var r := ParseSpec(args);
      && "_body" in r
      && (LastIndex(Groups(args, k), "_body") < 0 ==> r["_body"] == Join(args[..k]))
      && ((forall i :: 0 <= i < |args| ==> !IsFlag(args[i])) ==> r == map["_body" := Join(args)])
  {
    var k := NextFlag(args, 0);
    ParseFlagsGroups(args, k, map["_body" := Join(args[..k])]);
    ApplyAt(Groups(args, k), map["_body" := Join(args[..k])], "_body");
    if forall i :: 0 <= i < |args| ==> !IsFlag(args[i]) {
      assert k == |args|;
      assert args[..k] == args;
    }
  }

  /** Each key of the result other than `_body` comes from a flag, and takes
      the value of the last flag with that key: its following non-flag
      tokens joined by spaces. */
  lemma KeySpec(args: seq<string>, key: string)
    requires key != "_body"
    ensures var gs := Groups(args, NextFlag(args, 0)); var l := LastIndex(gs, key);
      && (key in ParseSpec(args) <==> l >= 0)
      && (l >= 0 ==> ParseSpec(args)[key] == Join(gs[l].values))
  {
    var k := NextFlag(args, 0);
    ParseFlagsGroups(args, k, map["_body" := Join(args[..k])]);
    ApplyAt(Groups(args, k), map["_body" := Join(args[..k])], key);
  }

  /** The tokens a group came from. */
  function Tokens(gs: seq<Group>): seq<string>
  {
    if gs == [] then [] else ["--" + gs[0].key] + gs[0].values + Tokens(gs[1..])
  }

  /** Every token lands in exactly one place: reading the groups back gives
      the tokens from the flag at `i` to the end. */
  lemma {:induction false} GroupsCover(args: seq<string>, i: nat)
    requires i <= |args|
    requires i < |args| ==> IsFlag(args[i])
    ensures Tokens(Groups(args, i)) == args[i..]
    decreases |args| - i
  {
    if i < |args| {
      var j := NextFlag(args, i + 1);
      GroupsCover(args, j);
      var gs := Groups(args, i);
      assert gs[1..] == Groups(args, j);
      assert "--" + args[i][2..] == args[i] by {
        assert args[i] == args[i][..2] + args[i][2..];
      }
      assert args[i..] == [args[i]] + args[i + 1..j] + args[j..];
    }
  }

  /** No value token is a flag, so the groups cannot be cut differently. */
  lemma {:induction false} GroupValuesAreNotFlags(args: seq<string>, i: nat)
    requires i <= |args|
    requires i < |args| ==> IsFlag(args[i])
    ensures var gs := Groups(args, i);
      forall n, t :: 0 <= n < |gs| && 0 <= t < |gs[n].values| ==> !IsFlag(gs[n].values[t])
    decreases |args| - i
  {
    if i < |args| {
      var j := NextFlag(args, i + 1);
      GroupValuesAreNotFlags(args, j);
      var gs := Groups(args, i);
      assert gs[1..] == Groups(args, j);
      forall n, t | 0 <= n < |gs| && 0 <= t < |gs[n].values|
        ensures !IsFlag(gs[n].values[t])
      {
        if n > 0 {
          assert gs[n] == gs[1..][n - 1];
        } else {
          assert gs[0] == Group(args[i][2..], args[i + 1..j]);
          assert i + 1 + t < j && gs[0].values[t] == args[i + 1 + t];
        }
      }
    }
  }

  /** The whole argument list is the body followed by the flag groups. */
  lemma Partition(args: seq<string>)
    ensures var k := NextFlag(args, 0); args == args[..k] + Tokens(Groups(args, k))
  {
    var k := NextFlag(args, 0);
    GroupsCover(args, k);
    assert args == args[..k] + args[k..];
  }

  /** A typical command line: the words before the first flag form the
      body, and a flag without values maps to the empty string. */
  lemma ExampleCommandLine()
    ensures ParseSpec(["standup", "call", "--start", "10am", "--end"])
         == map["_body" := "standup call", "start" := "10am", "end" := ""]
  {
    var a := ["standup", "call", "--start", "10am", "--end"];
    assert !IsFlag(a[0]) && !IsFlag(a[1]) && IsFlag(a[2]) && !IsFlag(a[3]) && IsFlag(a[4]);
    assert NextFlag(a, 0) == 2 && NextFlag(a, 3) == 4 && NextFlag(a, 5) == 5;
    assert a[..2] == ["standup", "call"] && a[3..4] == ["10am"] && a[5..5] == [];
    assert a[2][2..] == "start" && a[4][2..] == "end";
    assert Join(["standup", "call"]) == "standup call";
    var ma := map["_body" := "standup call"];
    assert ParseFlags(a, 5, ma["start" := "10am"]["end" := ""]) == ma["start" := "10am"]["end" := ""];
    assert ParseFlags(a, 4, ma["start" := "10am"]) == ma["start" := "10am"]["end" := ""];
    assert ParseFlags(a, 2, ma) == ma["start" := "10am"]["end" := ""];
    assert ParseSpec(a) == ParseFlags(a, 2, ma);
  }

  /** A bare `--` is a flag with the empty key, and a repeated key keeps the
      values of its last occurrence. */
  lemma ExampleEdgeCases()
    ensures ParseSpec(["--", "x", "--k", "a", "--k", "b", "c"])
         == map["_body" := "", "" := "x", "k" := "b c"]
  {
    var b := ["--", "x", "--k", "a", "--k", "b", "c"];
    assert IsFlag(b[0]) && !IsFlag(b[1]) && IsFlag(b[2]) && !IsFlag(b[3]) && IsFlag(b[4]) && !IsFlag(b[5]) && !IsFlag(b[6]);
    assert NextFlag(b, 0) == 0 && NextFlag(b, 1) == 2 && NextFlag(b, 3) == 4 && NextFlag(b, 5) == 7;
    assert b[..0] == [] && b[1..2] == ["x"] && b[3..4] == ["a"] && b[5..7] == ["b", "c"];
    assert b[0][2..] == "" && b[2][2..] == "k" && b[4][2..] == "k";
    assert Join(["b", "c"]) == "b c";
    var mb := map["_body" := ""];
    assert ParseFlags(b, 7, mb["" := "x"]["k" := "a"]["k" := "b c"]) == mb["" := "x"]["k" := "a"]["k" := "b c"];
    assert ParseFlags(b, 4, mb["" := "x"]["k" := "a"]) == mb["" := "x"]["k" := "a"]["k" := "b c"];
    assert ParseFlags(b, 2, mb["" := "x"]) == mb["" := "x"]["k" := "a"]["k" := "b c"];
    assert ParseFlags(b, 0, mb) == mb["" := "x"]["k" := "a"]["k" := "b c"];
    assert ParseSpec(b) == ParseFlags(b, 0, mb);
  }
}
