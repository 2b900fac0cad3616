/** Rewriting the `.env` document that carries the runtime secrets. */
module EnvDocument {
  import opened Wrappers
  import opened Text

  /** The entries of the values object, in insertion order. */
  type Values = seq<(string, string)>

  // ---------- Lines ----------

  predicate IsKeyStart(c: char) { 'A' <= c <= 'Z' || 'a' <= c <= 'z' || c == '_' }

  predicate IsKeyChar(c: char) { IsKeyStart(c) || IsDigit(c) }

  predicate IsIdentifier(s: string) {
    s != [] && IsKeyStart(s[0]) && forall i :: 0 <= i < |s| ==> IsKeyChar(s[i])
  }

  /** The text before the first equals sign; None when there is none. */
  function BeforeEquals(line: string): (r: Option<string>)
    ensures r.Some? ==> |r.value| < |line| && r.value == line[..|r.value|] && line[|r.value|] == '=' && '=' !in r.value
  {
    if line == [] then None
    else if line[0] == '=' then Some([])
    else
      var rest := BeforeEquals(line[1..]);
      if rest.None? then None else Some([line[0]] + rest.value)
  }

  /** The key of a `KEY=` line: /^([A-Za-z_][A-Za-z0-9_]*)=/. */
  function KeyOf(line: string): Option<string> {
    var before := BeforeEquals(line);
    if before.Some? && IsIdentifier(before.value) then before else None
  }

  /** A letter or underscore, and then letters, digits and underscores. */
  lemma IdentifierPattern(key: string)
    ensures IsIdentifier(key) <==>
      key != [] && key[0] in UPPER + LOWER + {'_'} && OnlyOf(key, UPPER + LOWER + DIGITS + {'_'})
  {
    forall i | 0 <= i < |key|
      ensures IsKeyStart(key[i]) <==> key[i] in UPPER + LOWER + {'_'}
      ensures IsKeyChar(key[i]) <==> key[i] in UPPER + LOWER + DIGITS + {'_'}
    {
      Letters(key[i]);
      HexDigits(key[i]);
    }
  }

  /** A line has a key exactly if it is that identifier, the first equals sign, and some value. */
  lemma KeyPattern(line: string, key: string)
    ensures KeyOf(line) == Some(key) <==> IsIdentifier(key) && exists value :: line == key + "=" + value
  {
    if KeyOf(line) == Some(key) { assert line == key + "=" + line[|key| + 1..]; }
    if IsIdentifier(key) && exists value :: line == key + "=" + value {
      var value :| line == key + "=" + value;
      KeyOfSetting(key, value);
      assert line == Setting(key, value);
    }
  }

  function Setting(key: string, value: string): string { key + ['='] + value }

  lemma KeyOfSetting(key: string, value: string)
    requires IsIdentifier(key)
    ensures KeyOf(Setting(key, value)) == Some(key)
  {
    EqualsIsFound(key, value);
  }

  lemma {:induction false} EqualsIsFound(key: string, value: string)
    requires '=' !in key
    ensures BeforeEquals(Setting(key, value)) == Some(key)
  {
    if key != [] {
      EqualsIsFound(key[1..], value);
      assert Setting(key, value)[1..] == Setting(key[1..], value);
      assert key[0] in key && [key[0]] + key[1..] == key;
    }
  }

  /** `replace(/\r\n/g, '\n')`. */
  function NormalizeBreaks(s: string): string {
    if s == [] then []
    else if |s| >= 2 && s[0] == '\r' && s[1] == '\n' then ['\n'] + NormalizeBreaks(s[2..])
    else [s[0]] + NormalizeBreaks(s[1..])
  }

  function Lines(document: string): seq<string> {
    Split(NormalizeBreaks(document), '\n')
  }

  // ---------- The rewriting ----------

  function Find(values: Values, key: string): Option<string> {
    if values == [] then None else if values[0].0 == key then Some(values[0].1) else Find(values[1..], key)
  }

  /** The line sets one of the values. */
  predicate Targets(values: Values, line: string) {
    KeyOf(line).Some? && Find(values, KeyOf(line).value).Some?
  }

  /** Each first line of a target key gets the new value, later ones go, all others stay. */
  function Rewrite(lines: seq<string>, values: Values, written: set<string>): seq<string> {
    if lines == [] then []
    else if !Targets(values, lines[0]) then [lines[0]] + Rewrite(lines[1..], values, written)
    else
      var key := KeyOf(lines[0]).value;
      if key in written then Rewrite(lines[1..], values, written)
      else [Setting(key, Find(values, key).value)] + Rewrite(lines[1..], values, written + {key})
  }

  function WrittenKeys(lines: seq<string>, values: Values): set<string> {
    if lines == [] then {} else
      WrittenKeys(lines[1..], values) + if Targets(values, lines[0]) then {KeyOf(lines[0]).value} else {}
  }

  function DropBlank(lines: seq<string>): (r: seq<string>)
    ensures |r| <= |lines| && r == lines[..|r|]
    ensures forall i :: |r| <= i < |lines| ==> lines[i] == []
    ensures r != [] ==> r[|r| - 1] != []
  {
    if lines != [] && lines[|lines| - 1] == [] then DropBlank(lines[..|lines| - 1]) else lines
  }

  /** The settings of the keys that no line carried, in order. */
  function Missing(values: Values, written: set<string>): seq<string> {
    if values == [] then []
    else if values[0].0 in written then Missing(values[1..], written)
    else [Setting(values[0].0, values[0].1)] + Missing(values[1..], written)
  }

  function UpdatedLines(lines: seq<string>, values: Values): seq<string> {
    DropBlank(Rewrite(lines, values, {})) + Missing(values, WrittenKeys(lines, values))
  }

  function Update(current: string, values: Values): string {
    Join(UpdatedLines(Lines(current), values), '\n') + ['\n']
  }

  lemma RewriteStep(lines: seq<string>, i: nat, values: Values, written: set<string>)
    requires i < |lines|
    ensures WrittenKeys(lines[i..], values)
      == WrittenKeys(lines[i + 1..], values) + if Targets(values, lines[i]) then {KeyOf(lines[i]).value} else {}
    ensures Rewrite(lines[i..], values, written)
      == if !Targets(values, lines[i]) then [lines[i]] + Rewrite(lines[i + 1..], values, written)
         else if KeyOf(lines[i]).value in written then Rewrite(lines[i + 1..], values, written)
         else [Setting(KeyOf(lines[i]).value, Find(values, KeyOf(lines[i]).value).value)]
              + Rewrite(lines[i + 1..], values, written + {KeyOf(lines[i]).value})
  {
  }

  lemma AppendFirst(output: seq<string>, first: string, rest: seq<string>)
    ensures output + [first] + rest == output + ([first] + rest)
  {
  }

  /** The pass over the lines with the map of pending values. */
  method RewriteLines(lines: seq<string>, values: Values) returns (output: seq<string>, pending: Values)
    ensures output == Rewrite(lines, values, {})
    ensures pending == Without(values, WrittenKeys(lines, values))
  {
    pending, output := values, [];
    ghost var written: set<string> := {};
    WithoutNothing(values);
    for i := 0 to |lines|
      invariant output + Rewrite(lines[i..], values, written) == Rewrite(lines, values, {})
      invariant written + WrittenKeys(lines[i..], values) == WrittenKeys(lines, values)
      invariant pending == Without(values, written)
    {
      RewriteStep(lines, i, values, written);
      var line := lines[i];
      if !Targets(values, line) {
        AppendFirst(output, line, Rewrite(lines[i + 1..], values, written));
        output := output + [line];
      } else {
        var key := KeyOf(line).value;
        FindPending(values, written, key);
        if Find(pending, key).Some? {
          AppendFirst(output, Setting(key, Find(pending, key).value), Rewrite(lines[i + 1..], values, written + {key}));
          output := output + [Setting(key, Find(pending, key).value)];
          RemoveKey(values, written, key);
          pending := Without(pending, {key});
          written := written + {key};
        }
      }
    }
  }

  /** `updateEnvDocument`. */
  method UpdateEnvDocument(current: string, values: Values) returns (document: string)
    ensures document == Update(current, values)
  {
    var lines := Lines(current);
    var output, pending := RewriteLines(lines, values);
    ghost var rewritten := output;
    while |output| > 0 && output[|output| - 1] == []
      invariant DropBlank(output) == DropBlank(rewritten)
      decreases |output|
    {
      output := output[..|output| - 1];
    }
    ghost var kept := output;
    for i := 0 to |pending|
      invariant output + Settings(pending[i..]) == kept + Settings(pending)
    {
      assert pending[i..][1..] == pending[i + 1..];
      output := output + [Setting(pending[i].0, pending[i].1)];
    }
    assert pending[|pending|..] == [] && output == kept + Settings(pending);
    PendingAreMissing(values, WrittenKeys(lines, values));
    assert kept == DropBlank(rewritten);
    document := Join(output, '\n') + ['\n'];
  }

  predicate DistinctKeys(values: Values) {
    forall i, j :: 0 <= i < j < |values| ==> values[i].0 != values[j].0
  }

  /** The entries whose key is not in the set. */
  function Without(values: Values, keys: set<string>): Values {
    if values == [] then []
    else if values[0].0 in keys then Without(values[1..], keys)
    else [values[0]] + Without(values[1..], keys)
  }

  function Settings(values: Values): seq<string> {
    if values == [] then [] else [Setting(values[0].0, values[0].1)] + Settings(values[1..])
  }

  lemma {:induction false} WithoutNothing(values: Values)
    ensures Without(values, {}) == values
  {
    if values != [] { WithoutNothing(values[1..]); }
  }

  lemma {:induction false} FindPending(values: Values, keys: set<string>, key: string)
    ensures Find(Without(values, keys), key) == if key in keys then None else Find(values, key)
  {
    if values != [] {
      FindPending(values[1..], keys, key);
      if values[0].0 !in keys { assert Without(values, keys)[1..] == Without(values[1..], keys); }
    }
  }

  lemma {:induction false} RemoveKey(values: Values, keys: set<string>, key: string)
    ensures Without(Without(values, keys), {key}) == Without(values, keys + {key})
  {
    if values != [] {
      RemoveKey(values[1..], keys, key);
      if values[0].0 !in keys {
        assert Without(values, keys)[0] == values[0] && Without(values, keys)[1..] == Without(values[1..], keys);
      }
    }
  }

  lemma {:induction false} PendingAreMissing(values: Values, keys: set<string>)
    ensures Settings(Without(values, keys)) == Missing(values, keys)
  {
    if values != [] {
      PendingAreMissing(values[1..], keys);
      if values[0].0 !in keys {
        assert Without(values, keys)[0] == values[0] && Without(values, keys)[1..] == Without(values[1..], keys);
      }
    }
  }

  // ---------- What the rewritten lines look like ----------

  /** Every line of a target key sets its value, and no key comes twice or is among those already written. */
  predicate Settled(lines: seq<string>, values: Values, written: set<string>) {
    if lines == [] then true
    else if !Targets(values, lines[0]) then Settled(lines[1..], values, written)
    else
      var key := KeyOf(lines[0]).value;
      && key !in written && lines[0] == Setting(key, Find(values, key).value)
      && Settled(lines[1..], values, written + {key})
  }

  lemma {:induction false} RewriteSettles(lines: seq<string>, values: Values, written: set<string>)
    ensures Settled(Rewrite(lines, values, written), values, written)
    ensures WrittenKeys(Rewrite(lines, values, written), values) == WrittenKeys(lines, values) - written
  {
    if lines != [] {
      var rest := lines[1..];
      if !Targets(values, lines[0]) {
        RewriteSettles(rest, values, written);
        assert ([lines[0]] + Rewrite(rest, values, written))[1..] == Rewrite(rest, values, written);
      } else {
        var key := KeyOf(lines[0]).value;
        if key in written {
          RewriteSettles(rest, values, written);
        } else {
          var line := Setting(key, Find(values, key).value);
          RewriteSettles(rest, values, written + {key});
          KeyOfSetting(key, Find(values, key).value);
          assert ([line] + Rewrite(rest, values, written + {key}))[1..] == Rewrite(rest, values, written + {key});
        }
      }
    }
  }

  lemma {:induction false} SettledStays(lines: seq<string>, values: Values, written: set<string>)
    requires Settled(lines, values, written)
    ensures Rewrite(lines, values, written) == lines
  {
    if lines != [] {
      SettledStays(
        lines[1..], values, if Targets(values, lines[0]) then written + {KeyOf(lines[0]).value} else written);
    }
  }

  lemma {:induction false} SettledConcat(a: seq<string>, b: seq<string>, values: Values, written: set<string>)
    ensures WrittenKeys(a + b, values) == WrittenKeys(a, values) + WrittenKeys(b, values)
    ensures Settled(a + b, values, written) <==>
      Settled(a, values, written) && Settled(b, values, written + WrittenKeys(a, values))
  {
    if a == [] {
      assert a + b == b && written + WrittenKeys(a, values) == written;
    } else {
      var key := if Targets(values, a[0]) then {KeyOf(a[0]).value} else {};
      assert (a + b)[1..] == a[1..] + b && (a + b)[0] == a[0];
      SettledConcat(a[1..], b, values, written + key);
      assert written + WrittenKeys(a, values) == written + key + WrittenKeys(a[1..], values);
      if !Targets(values, a[0]) { assert written + key == written; }
    }
  }

  /** Blank lines target nothing. */
  lemma {:induction false} BlankTail(lines: seq<string>, values: Values, n: nat)
    requires n <= |lines| && forall i :: n <= i < |lines| ==> lines[i] == []
    ensures WrittenKeys(lines[n..], values) == {}
    decreases |lines| - n
  {
    if n < |lines| {
      BlankTail(lines, values, n + 1);
      assert lines[n..][1..] == lines[n + 1..];
    }
  }

  lemma DropBlankSettles(lines: seq<string>, values: Values)
    requires Settled(lines, values, {})
    ensures Settled(DropBlank(lines), values, {})
    ensures WrittenKeys(DropBlank(lines), values) == WrittenKeys(lines, values)
  {
    var n := |DropBlank(lines)|;
    assert lines == lines[..n] + lines[n..];
    SettledConcat(lines[..n], lines[n..], values, {});
    BlankTail(lines, values, n);
  }

  ghost predicate GoodValues(values: Values) {
    DistinctKeys(values) && forall i :: 0 <= i < |values| ==>
      IsIdentifier(values[i].0) && '\n' !in values[i].1 && '\r' !in values[i].1
  }

  lemma {:induction false} FindAt(values: Values, i: nat)
    requires DistinctKeys(values) && i < |values|
    ensures Find(values, values[i].0) == Some(values[i].1)
  {
    if i > 0 {
      assert values[0].0 != values[i].0;
      FindAt(values[1..], i - 1);
    }
  }

  lemma {:induction false} FoundAt(values: Values, key: string) returns (i: nat)
    requires Find(values, key).Some?
    ensures i < |values| && values[i] == (key, Find(values, key).value)
  {
    if values[0].0 == key {
      i := 0;
    } else {
      i := FoundAt(values[1..], key);
      i := i + 1;
    }
  }

  lemma {:induction false} MissingSettles(values: Values, n: nat, present: set<string>, written: set<string>)
    requires GoodValues(values) && n <= |values|
    requires forall i :: n <= i < |values| && values[i].0 in written ==> values[i].0 in present
    ensures Settled(Missing(values[n..], present), values, written)
    ensures forall i :: n <= i < |values| && values[i].0 !in present ==>
      Setting(values[i].0, values[i].1) in Missing(values[n..], present)
    decreases |values| - n
  {
    if n < |values| {
      var key, value := values[n].0, values[n].1;
      assert values[n..][1..] == values[n + 1..];
      if key in present {
        MissingSettles(values, n + 1, present, written);
      } else {
        MissingSettles(values, n + 1, present, written + {key});
        FindAt(values, n);
        KeyOfSetting(key, value);
        assert Missing(values[n..], present)[1..] == Missing(values[n + 1..], present);
      }
    }
  }

  lemma UpdatedIsSettled(lines: seq<string>, values: Values)
    requires GoodValues(values)
    ensures Settled(UpdatedLines(lines, values), values, {})
    ensures UpdatedLines(lines, values) != [] ==> UpdatedLines(lines, values)[|UpdatedLines(lines, values)| - 1] != []
  {
    var kept, present := DropBlank(Rewrite(lines, values, {})), WrittenKeys(lines, values);
    RewriteSettles(lines, values, {});
    DropBlankSettles(Rewrite(lines, values, {}), values);
    assert values[0..] == values && {} + WrittenKeys(kept, values) == present;
    MissingSettles(values, 0, present, present);
    SettledConcat(kept, Missing(values, present), values, {});
    MissingIsNotBlank(values, present);
    var added := Missing(values, present);
    assert added != [] ==> added[|added| - 1] in added;
  }

  lemma {:induction false} MissingIsNotBlank(values: Values, present: set<string>)
    ensures forall line :: line in Missing(values, present) ==> line != []
  {
    if values != [] { MissingIsNotBlank(values[1..], present); }
  }

  // ---------- Main results ----------

  lemma {:induction false} SettledKeyIsFresh(lines: seq<string>, values: Values, written: set<string>, i: nat)
    requires Settled(lines, values, written) && i < |lines| && Targets(values, lines[i])
    ensures var key := KeyOf(lines[i]).value;
            key !in written && lines[i] == Setting(key, Find(values, key).value)
  {
    if i > 0 {
      SettledKeyIsFresh(
        lines[1..], values, if Targets(values, lines[0]) then written + {KeyOf(lines[0]).value} else written, i - 1);
    }
  }

  lemma {:induction false} SettledKeysDiffer(lines: seq<string>, values: Values, written: set<string>, i: nat, j: nat)
    requires Settled(lines, values, written) && i < j < |lines|
    requires Targets(values, lines[i]) && Targets(values, lines[j])
    ensures KeyOf(lines[i]) != KeyOf(lines[j])
  {
    var next := if Targets(values, lines[0]) then written + {KeyOf(lines[0]).value} else written;
    if i > 0 {
      SettledKeysDiffer(lines[1..], values, next, i - 1, j - 1);
    } else {
      SettledKeyIsFresh(lines[1..], values, next, j - 1);
    }
  }

  lemma {:induction false} WrittenIsThere(lines: seq<string>, values: Values, key: string) returns (i: nat)
    requires key in WrittenKeys(lines, values)
    ensures i < |lines| && Targets(values, lines[i]) && KeyOf(lines[i]) == Some(key)
  {
    if Targets(values, lines[0]) && KeyOf(lines[0]).value == key {
      i := 0;
    } else {
      i := WrittenIsThere(lines[1..], values, key);
      i := i + 1;
    }
  }

  /** Every key ends up on exactly one line, which sets its value. */
  lemma ExactlyOneLinePerKey(lines: seq<string>, values: Values, n: nat) returns (i: nat)
    requires GoodValues(values) && n < |values|
    ensures var updated := UpdatedLines(lines, values);
            && i < |updated| && updated[i] == Setting(values[n].0, values[n].1)
            && forall j :: 0 <= j < |updated| && KeyOf(updated[j]) == Some(values[n].0) ==> j == i
  {
    var updated, key := UpdatedLines(lines, values), values[n].0;
    var kept, present := DropBlank(Rewrite(lines, values, {})), WrittenKeys(lines, values);
    FindAt(values, n);
    KeyOfSetting(key, values[n].1);
    UpdatedIsSettled(lines, values);
    if key in present {
      RewriteSettles(lines, values, {});
      DropBlankSettles(Rewrite(lines, values, {}), values);
      i := WrittenIsThere(kept, values, key);
      assert updated[i] == kept[i];
    } else {
      assert values[0..] == values;
      MissingSettles(values, 0, present, present);
      var added := Missing(values, present);
      var k :| 0 <= k < |added| && added[k] == Setting(key, values[n].1);
      i := |kept| + k;
    }
    SettledKeyIsFresh(updated, values, {}, i);
    forall j | 0 <= j < |updated| && KeyOf(updated[j]) == Some(key) ensures j == i {
      if j < i { SettledKeysDiffer(updated, values, {}, j, i); }
      if i < j { SettledKeysDiffer(updated, values, {}, i, j); }
    }
  }

  /** The lines that set none of the values, in order. */
  function Others(lines: seq<string>, values: Values): seq<string> {
    if lines == [] then []
    else if Targets(values, lines[0]) then Others(lines[1..], values)
    else [lines[0]] + Others(lines[1..], values)
  }

  lemma {:induction false} OthersConcat(a: seq<string>, b: seq<string>, values: Values)
    ensures Others(a + b, values) == Others(a, values) + Others(b, values)
  {
    if a == [] {
      assert a + b == b;
    } else {
      assert (a + b)[1..] == a[1..] + b && (a + b)[0] == a[0];
      OthersConcat(a[1..], b, values);
    }
  }

  lemma {:induction false} RewriteKeepsOthers(lines: seq<string>, values: Values, written: set<string>)
    ensures Others(Rewrite(lines, values, written), values) == Others(lines, values)
  {
    if lines != [] {
      var rest := lines[1..];
      if !Targets(values, lines[0]) {
        RewriteKeepsOthers(rest, values, written);
        assert ([lines[0]] + Rewrite(rest, values, written))[1..] == Rewrite(rest, values, written);
      } else {
        var key := KeyOf(lines[0]).value;
        RewriteKeepsOthers(rest, values, written + {key});
        RewriteKeepsOthers(rest, values, written);
        KeyOfSetting(key, Find(values, key).value);
        var line := Setting(key, Find(values, key).value);
        assert ([line] + Rewrite(rest, values, written + {key}))[1..] == Rewrite(rest, values, written + {key});
      }
    }
  }

  lemma {:induction false} OthersOfBlank(lines: seq<string>, values: Values)
    requires forall i :: 0 <= i < |lines| ==> lines[i] == []
    ensures Others(lines, values) == lines
  {
    if lines != [] { OthersOfBlank(lines[1..], values); }
  }

  lemma {:induction false} OthersOfMissing(values: Values, n: nat, present: set<string>)
    requires GoodValues(values) && n <= |values|
    ensures Others(Missing(values[n..], present), values) == []
    decreases |values| - n
  {
    if n < |values| {
      assert values[n..][1..] == values[n + 1..];
      OthersOfMissing(values, n + 1, present);
      FindAt(values, n);
      KeyOfSetting(values[n].0, values[n].1);
      if values[n].0 !in present {
        assert Missing(values[n..], present)[1..] == Missing(values[n + 1..], present);
      }
    }
  }

  /** All other lines stay, in order, apart from trailing blank ones. */
  lemma OtherLinesStay(lines: seq<string>, values: Values) returns (blanks: seq<string>)
    requires GoodValues(values)
    ensures Others(lines, values) == Others(UpdatedLines(lines, values), values) + blanks
    ensures forall i :: 0 <= i < |blanks| ==> blanks[i] == []
  {
    var rewritten := Rewrite(lines, values, {});
    var kept := DropBlank(rewritten);
    blanks := rewritten[|kept|..];
    assert rewritten == kept + blanks;
    RewriteKeepsOthers(lines, values, {});
    OthersConcat(kept, blanks, values);
    OthersOfBlank(blanks, values);
    assert values[0..] == values;
    OthersOfMissing(values, 0, WrittenKeys(lines, values));
    OthersConcat(kept, Missing(values, WrittenKeys(lines, values)), values);
  }

  // ---------- Idempotence ----------

  /** The only line breaks are LF and CRLF. */
  ghost predicate NoStrayReturn(s: string) {
    forall i :: 0 <= i < |s| && s[i] == '\r' ==> i + 1 < |s| && s[i + 1] == '\n'
  }

  lemma {:induction false} NormalizeDropsReturns(s: string)
    requires NoStrayReturn(s)
    ensures '\r' !in NormalizeBreaks(s)
    ensures forall c :: c in NormalizeBreaks(s) ==> c in s
  {
    if s != [] {
      var n := if |s| >= 2 && s[0] == '\r' && s[1] == '\n' then 2 else 1;
      assert forall i :: 0 <= i < |s| - n ==> s[n..][i] == s[i + n];
      NormalizeDropsReturns(s[n..]);
      assert s == s[..n] + s[n..];
    }
  }

  lemma {:induction false} NormalizeKeeps(s: string)
    requires '\r' !in s
    ensures NormalizeBreaks(s) == s
  {
    if s != [] {
      assert s == [s[0]] + s[1..];
      NormalizeKeeps(s[1..]);
    }
  }

  /** No line contains any of the characters. */
  ghost predicate LinesAvoid(lines: seq<string>, avoided: set<char>) {
    forall line, c :: line in lines && c in avoided ==> c !in line
  }

  ghost predicate ValuesAvoid(values: Values, avoided: set<char>) {
    forall i, c :: 0 <= i < |values| && c in avoided ==> c !in values[i].1
  }

  /** Characters that occur in no key and are not the equals sign. */
  ghost predicate OutsideKeys(avoided: set<char>) {
    forall c :: c in avoided ==> !IsKeyChar(c) && c != '='
  }

  lemma SettingAvoids(key: string, value: string, avoided: set<char>)
    requires IsIdentifier(key) && OutsideKeys(avoided) && forall c :: c in avoided ==> c !in value
    ensures forall c :: c in avoided ==> c !in Setting(key, value)
  {
  }

  lemma {:induction false} RewriteAvoids(lines: seq<string>, values: Values, written: set<string>, avoided: set<char>)
    requires LinesAvoid(lines, avoided) && ValuesAvoid(values, avoided) && OutsideKeys(avoided)
    ensures LinesAvoid(Rewrite(lines, values, written), avoided)
  {
    if lines != [] {
      assert lines[0] in lines;
      assert forall line :: line in lines[1..] ==> line in lines;
      if !Targets(values, lines[0]) {
        RewriteAvoids(lines[1..], values, written, avoided);
      } else {
        var key := KeyOf(lines[0]).value;
        RewriteAvoids(lines[1..], values, written, avoided);
        RewriteAvoids(lines[1..], values, written + {key}, avoided);
        var i := FoundAt(values, key);
        SettingAvoids(key, Find(values, key).value, avoided);
      }
    }
  }

  lemma {:induction false} MissingAvoids(values: Values, present: set<string>, avoided: set<char>)
    requires ValuesAvoid(values, avoided) && OutsideKeys(avoided)
    requires forall i :: 0 <= i < |values| ==> IsIdentifier(values[i].0)
    ensures LinesAvoid(Missing(values, present), avoided)
  {
    if values != [] {
      MissingAvoids(values[1..], present, avoided);
      SettingAvoids(values[0].0, values[0].1, avoided);
    }
  }

  lemma UpdatedAvoids(lines: seq<string>, values: Values, avoided: set<char>)
    requires GoodValues(values) && LinesAvoid(lines, avoided) && ValuesAvoid(values, avoided) && OutsideKeys(avoided)
    ensures LinesAvoid(UpdatedLines(lines, values), avoided)
  {
    RewriteAvoids(lines, values, {}, avoided);
    MissingAvoids(values, WrittenKeys(lines, values), avoided);
    var rewritten := Rewrite(lines, values, {});
    assert forall line :: line in DropBlank(rewritten) ==> line in rewritten;
  }

  lemma {:induction false} JoinWithFinalBreak(lines: seq<string>)
    requires lines != []
    ensures Join(lines, '\n') + ['\n'] == Join(lines + [[]], '\n')
  {
    var longer := lines + [[]];
    assert longer[1..] == lines[1..] + [[]] && longer[0] == lines[0];
    if |lines| == 1 {
      assert lines[1..] + [[]] == [[]];
      assert Join(longer, '\n') == lines[0] + ['\n'] + Join([[]], '\n');
    } else {
      JoinWithFinalBreak(lines[1..]);
    }
  }

  lemma {:induction false} JoinAvoids(lines: seq<string>, c: char)
    requires c != '\n' && forall line :: line in lines ==> c !in line
    ensures c !in Join(lines, '\n')
  {
    if |lines| > 1 {
      JoinAvoids(lines[1..], c);
      assert lines[0] in lines;
    }
  }

  /** Reading a written document back gives its lines and one final blank one. */
  lemma LinesOfWritten(lines: seq<string>)
    requires LinesAvoid(lines, {'\n', '\r'})
    ensures Lines(Join(lines, '\n') + ['\n']) == (if lines == [] then [[]] else lines) + [[]]
  {
    var whole: seq<string> := if lines == [] then [[]] else lines;
    assert Join(lines, '\n') == Join(whole, '\n');
    JoinWithFinalBreak(whole);
    assert forall line :: line in lines ==> '\r' !in line && '\n' !in line;
    JoinAvoids(whole + [[]], '\r');
    NormalizeKeeps(Join(whole + [[]], '\n'));
    SplitAfterJoin(whole + [[]], '\n');
  }

  lemma {:induction false} NothingMissing(values: Values, present: set<string>)
    requires forall i :: 0 <= i < |values| ==> values[i].0 in present
    ensures Missing(values, present) == []
  {
    if values != [] { NothingMissing(values[1..], present); }
  }

  lemma AllKeysWritten(lines: seq<string>, values: Values)
    requires GoodValues(values)
    ensures Missing(values, WrittenKeys(UpdatedLines(lines, values), values)) == []
  {
    var updated := UpdatedLines(lines, values);
    forall n | 0 <= n < |values| ensures values[n].0 in WrittenKeys(updated, values) {
      var i := ExactlyOneLinePerKey(lines, values, n);
      FindAt(values, n);
      KeyOfSetting(values[n].0, values[n].1);
      LineIsWritten(updated, values, i);
    }
    NothingMissing(values, WrittenKeys(updated, values));
  }

  lemma {:induction false} LineIsWritten(lines: seq<string>, values: Values, i: nat)
    requires i < |lines| && Targets(values, lines[i])
    ensures KeyOf(lines[i]).value in WrittenKeys(lines, values)
  {
    if i > 0 { LineIsWritten(lines[1..], values, i - 1); }
  }

  lemma BlankChangesNothing(blanks: seq<string>, updated: seq<string>, values: Values)
    requires forall i :: 0 <= i < |blanks| ==> blanks[i] == []
    requires Settled(updated, values, {}) && (updated != [] ==> updated[|updated| - 1] != [])
    ensures Settled(updated + blanks, values, {})
    ensures WrittenKeys(updated + blanks, values) == WrittenKeys(updated, values)
    ensures DropBlank(updated + blanks) == updated
  {
    SettledConcat(updated, blanks, values, {});
    assert blanks[0..] == blanks;
    BlankTail(blanks, values, 0);
    BlanksSettle(blanks, values, {} + WrittenKeys(updated, values));
    DropBlankOfBlanks(updated, blanks);
  }

  lemma {:induction false} DropBlankOfBlanks(updated: seq<string>, blanks: seq<string>)
    requires forall i :: 0 <= i < |blanks| ==> blanks[i] == []
    requires updated != [] ==> updated[|updated| - 1] != []
    ensures DropBlank(updated + blanks) == updated
  {
    if blanks == [] {
      assert updated + blanks == updated;
    } else {
      var m := |blanks| - 1;
      DropBlankOfBlanks(updated, blanks[..m]);
      assert (updated + blanks)[..|updated| + m] == updated + blanks[..m];
    }
  }

  lemma {:induction false} BlanksSettle(blanks: seq<string>, values: Values, written: set<string>)
    requires forall i :: 0 <= i < |blanks| ==> blanks[i] == []
    ensures Settled(blanks, values, written)
  {
    if blanks != [] { BlanksSettle(blanks[1..], values, written); }
  }

  lemma LinesOfCleanDocument(current: string)
    requires NoStrayReturn(current)
    ensures LinesAvoid(Lines(current), {'\n', '\r'})
  {
    NormalizeDropsReturns(current);
    PiecesAvoid(NormalizeBreaks(current), '\r');
  }

  lemma {:induction false} PiecesAvoid(s: string, c: char)
    requires c !in s
    ensures forall piece :: piece in Split(s, '\n') ==> c !in piece
  {
    if s != [] {
      assert s == [s[0]] + s[1..];
      PiecesAvoid(s[1..], c);
      var rest := Split(s[1..], '\n');
      assert rest[0] in rest && forall piece :: piece in rest[1..] ==> piece in rest;
    }
  }

  /** A document that has been updated is a fixed point of the rewriting, final blank lines aside. */
  lemma SecondPass(updated: seq<string>, blanks: seq<string>, values: Values)
    requires forall i :: 0 <= i < |blanks| ==> blanks[i] == []
    requires Settled(updated, values, {}) && (updated != [] ==> updated[|updated| - 1] != [])
    requires Missing(values, WrittenKeys(updated, values)) == []
    ensures UpdatedLines(updated + blanks, values) == updated
  {
    BlankChangesNothing(blanks, updated, values);
    SettledStays(updated + blanks, values, {});
  }

  lemma UpdatedIsClean(current: string, values: Values)
    requires GoodValues(values) && NoStrayReturn(current)
    ensures LinesAvoid(UpdatedLines(Lines(current), values), {'\n', '\r'})
  {
    LinesOfCleanDocument(current);
    assert ValuesAvoid(values, {'\n', '\r'}) && OutsideKeys({'\n', '\r'});
    UpdatedAvoids(Lines(current), values, {'\n', '\r'});
  }

  /** Updating with the same values again changes nothing. */
  lemma UpdateIsIdempotent(current: string, values: Values)
    requires GoodValues(values) && NoStrayReturn(current)
    ensures Update(Update(current, values), values) == Update(current, values)
  {
    var lines := Lines(current);
    var updated := UpdatedLines(lines, values);
    UpdatedIsClean(current, values);
    LinesOfWritten(updated);
    var blanks: seq<string> := if updated == [] then [[], []] else [[]];
    assert Lines(Update(current, values)) == updated + blanks;
    UpdatedIsSettled(lines, values);
    AllKeysWritten(lines, values);
    SecondPass(updated, blanks, values);
  }
}
