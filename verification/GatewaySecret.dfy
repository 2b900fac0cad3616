/** The gateway secret as the supervisor reads it from the file that the backend has written. */
module GatewaySecret {
  import opened Wrappers
  import opened Text
  import opened EnvDocument

  const GATEWAY_KEY := "REMOTE_GATEWAY_SHARED_SECRET"
  const MINIMUM_SECRET_LENGTH := 32

  /** The characters at which `.` stops and `^` and `$` match in multi-line mode. */
  predicate IsTerminator(c: char) {
    c == '\n' || c == '\r' || c == '\U{2028}' || c == '\U{2029}'
  }

  predicate Plain(s: string) { forall i :: 0 <= i < |s| ==> !IsTerminator(s[i]) }

  function LineRun(s: string): string {
    if s == [] || IsTerminator(s[0]) then [] else [s[0]] + LineRun(s[1..])
  }

  function AfterTerminator(s: string): (r: Option<string>)
    ensures r.Some? ==> |r.value| < |s|
  {
    if s == [] then None else if IsTerminator(s[0]) then Some(s[1..]) else AfterTerminator(s[1..])
  }

  /** The text begins with a match of PREFIX(.+). */
  predicate Begins(s: string, prefix: string) {
    |s| > |prefix| && s[..|prefix|] == prefix && !IsTerminator(s[|prefix|])
  }

  /** The group of the first match of /^PREFIX(.+)$/m in a text that begins at the start of a line. */
  function MatchLine(s: string, prefix: string): Option<string>
    decreases |s|
  {
    if Begins(s, prefix) then Some(LineRun(s[|prefix|..]))
    else
      var rest := AfterTerminator(s);
      if rest.None? then None else MatchLine(rest.value, prefix)
  }

  predicate IsTrimmed(secret: string) {
    |secret| >= 32 && !IsSpace(secret[0]) && !IsSpace(secret[|secret| - 1])
  }

  function Accepted(text: string): (r: Option<string>)
    ensures r.Some? ==> IsTrimmed(r.value)
  {
    if |Trim(text)| >= MINIMUM_SECRET_LENGTH then Some(Trim(text)) else None
  }

  function ReadBack(contents: string): (r: Option<string>)
    ensures r.Some? ==> IsTrimmed(r.value)
  {
    var found := MatchLine(contents, Setting(GATEWAY_KEY, ""));
    if found.None? then None else Accepted(found.value)
  }

  /** Long enough, without surrounding white space, and on one line even for the search. */
  predicate IsReadable(secret: string) {
    IsTrimmed(secret) && Plain(secret)
  }

  // ---------- The search as a search over pieces ----------

  /** The text between the terminators. */
  function Pieces(s: string): (r: seq<string>)
    ensures r != []
    decreases |s|
  {
    var rest := AfterTerminator(s);
    [LineRun(s)] + if rest.None? then [] else Pieces(rest.value)
  }

  /** What follows the prefix in the first piece that starts with it and goes on. */
  function FirstValue(pieces: seq<string>, prefix: string): Option<string> {
    if pieces == [] then None
    else if |pieces[0]| > |prefix| && pieces[0][..|prefix|] == prefix then Some(pieces[0][|prefix|..])
    else FirstValue(pieces[1..], prefix)
  }

  lemma {:induction false} RunIsPrefix(s: string)
    ensures |LineRun(s)| <= |s| && s[..|LineRun(s)|] == LineRun(s) && Plain(LineRun(s))
    ensures |LineRun(s)| < |s| ==> IsTerminator(s[|LineRun(s)|])
  {
    if s != [] && !IsTerminator(s[0]) {
      RunIsPrefix(s[1..]);
      var n := |LineRun(s[1..])|;
      assert s[..n + 1] == [s[0]] + s[1..][..n];
    }
  }

  lemma {:induction false} RunGoesOn(a: string, b: string)
    requires Plain(a)
    ensures LineRun(a + b) == a + LineRun(b) && AfterTerminator(a + b) == AfterTerminator(b)
  {
    if a == [] {
      assert a + b == b;
    } else {
      RunGoesOn(a[1..], b);
      assert (a + b)[1..] == a[1..] + b;
      assert [a[0]] + (a[1..] + LineRun(b)) == a + LineRun(b);
    }
  }

  /** The search looks at the first piece. */
  lemma MatchAtStart(s: string, prefix: string)
    requires Plain(prefix)
    ensures var run := LineRun(s);
            && (Begins(s, prefix) <==> |run| > |prefix| && run[..|prefix|] == prefix)
            && (|run| > |prefix| && run[..|prefix|] == prefix ==> run[|prefix|..] == LineRun(s[|prefix|..]))
  {
    RunIsPrefix(s);
    if |s| > |prefix| && s[..|prefix|] == prefix {
      assert s == prefix + s[|prefix|..];
      RunGoesOn(prefix, s[|prefix|..]);
    }
    if |LineRun(s)| > |prefix| && LineRun(s)[..|prefix|] == prefix {
      assert s[..|prefix|] == s[..|LineRun(s)|][..|prefix|];
    }
  }

  lemma {:induction false} MatchOverPieces(s: string, prefix: string)
    requires Plain(prefix)
    ensures MatchLine(s, prefix) == FirstValue(Pieces(s), prefix)
    decreases |s|
  {
    MatchAtStart(s, prefix);
    var rest := AfterTerminator(s);
    if rest.Some? { MatchOverPieces(rest.value, prefix); }
  }

  lemma PiecesOfFirst(s: string)
    requires s != []
    ensures var later := Pieces(s[1..]);
            Pieces(s) == if IsTerminator(s[0]) then [[]] + later else [[s[0]] + later[0]] + later[1..]
  {
  }

  lemma {:induction false} PiecesJoin(a: string, b: string)
    ensures Pieces(a + ['\n'] + b) == Pieces(a) + Pieces(b)
    decreases |a|
  {
    var whole := a + ['\n'] + b;
    PiecesOfFirst(whole);
    if a == [] {
      assert whole[1..] == b;
    } else {
      PiecesOfFirst(a);
      PiecesJoin(a[1..], b);
      assert whole[1..] == a[1..] + ['\n'] + b && whole[0] == a[0];
      FirstPieceGrows(a[0], Pieces(a[1..]), Pieces(b));
    }
  }

  lemma FirstPieceGrows(c: char, p: seq<string>, q: seq<string>)
    requires p != []
    ensures [[c] + (p + q)[0]] + (p + q)[1..] == [[c] + p[0]] + p[1..] + q
    ensures [[]] + (p + q) == [[]] + p + q
  {
  }

  lemma {:induction false} FirstValueConcat(a: seq<string>, b: seq<string>, prefix: string)
    ensures FirstValue(a + b, prefix) ==
      if FirstValue(a, prefix).Some? then FirstValue(a, prefix) else FirstValue(b, prefix)
  {
    if a == [] {
      assert a + b == b;
    } else {
      FirstValueConcat(a[1..], b, prefix);
      assert (a + b)[1..] == a[1..] + b;
    }
  }

  // ---------- The search over the lines of a document ----------

  /** What the search finds in a document with these lines. */
  function TextValue(lines: seq<string>, prefix: string): Option<string> {
    if lines == [] then None else
      var first := FirstValue(Pieces(lines[0]), prefix);
      if first.Some? then first else TextValue(lines[1..], prefix)
  }

  lemma {:induction false} MatchOverLines(lines: seq<string>, prefix: string)
    requires lines != [] && Plain(prefix)
    ensures MatchLine(Join(lines, '\n') + ['\n'], prefix) == TextValue(lines, prefix)
    decreases |lines|
  {
    var rest := if |lines| == 1 then [] else Join(lines[1..], '\n') + ['\n'];
    assert Join(lines, '\n') + ['\n'] == lines[0] + ['\n'] + rest;
    MatchOverPieces(lines[0] + ['\n'] + rest, prefix);
    MatchOverPieces(rest, prefix);
    PiecesJoin(lines[0], rest);
    FirstValueConcat(Pieces(lines[0]), Pieces(rest), prefix);
    if |lines| > 1 { MatchOverLines(lines[1..], prefix); }
  }

  lemma {:induction false} TextValueConcat(a: seq<string>, b: seq<string>, prefix: string)
    ensures TextValue(a + b, prefix) ==
      if TextValue(a, prefix).Some? then TextValue(a, prefix) else TextValue(b, prefix)
  {
    if a == [] {
      assert a + b == b;
    } else {
      TextValueConcat(a[1..], b, prefix);
      assert (a + b)[1..] == a[1..] + b;
    }
  }

  /** The position of the first line of the key. */
  function LineOf(lines: seq<string>, key: string): (i: nat)
    ensures i <= |lines|
    ensures forall j :: 0 <= j < i ==> KeyOf(lines[j]) != Some(key)
    ensures i < |lines| ==> KeyOf(lines[i]) == Some(key)
  {
    if lines == [] || KeyOf(lines[0]) == Some(key) then 0 else LineOf(lines[1..], key) + 1
  }

  /**
   What the search finds before the line of the key: a setting of it that follows a terminator which the
   rewriter does not take for a line break.
   */
  function Shadow(lines: seq<string>, key: string): Option<string> {
    TextValue(lines[..LineOf(lines, key)], Setting(key, ""))
  }

  // ---------- Which documents have a shadow ----------

  /** Inside the line, right after the terminator at this position, the search finds a value. */
  predicate SetsAfter(line: string, prefix: string, at: nat) {
    at < |line| && IsTerminator(line[at]) && Begins(line[at + 1..], prefix)
  }

  lemma {:induction false} RestIsAfterRun(s: string)
    ensures var n := |LineRun(s)|;
            && n <= |s| && (forall k :: 0 <= k < n ==> !IsTerminator(s[k]))
            && AfterTerminator(s) == (if n < |s| then Some(s[n + 1..]) else None)
            && (n < |s| ==> IsTerminator(s[n]))
  {
    if s != [] && !IsTerminator(s[0]) { RestIsAfterRun(s[1..]); }
  }

  lemma SetsAfterInRest(s: string, prefix: string, n: nat, at: nat)
    requires n < |s|
    ensures SetsAfter(s[n + 1..], prefix, at) <==> SetsAfter(s, prefix, n + 1 + at)
  {
    if n + 1 + at < |s| { assert s[n + 1..][at + 1..] == s[n + 1 + at + 1..]; }
  }

  lemma {:induction false} MatchIsAfterTerminator(s: string, prefix: string)
    ensures MatchLine(s, prefix).Some? <==> Begins(s, prefix) || exists at: nat :: SetsAfter(s, prefix, at)
    decreases |s|
  {
    RestIsAfterRun(s);
    var n := |LineRun(s)|;
    if n < |s| {
      var rest := s[n + 1..];
      MatchIsAfterTerminator(rest, prefix);
      assert Begins(rest, prefix) <==> SetsAfter(s, prefix, n);
      if at: nat :| SetsAfter(rest, prefix, at) { SetsAfterInRest(s, prefix, n, at); }
      if at: nat :| SetsAfter(s, prefix, at) && at != n { SetsAfterInRest(s, prefix, n, at - n - 1); }
    }
  }

  lemma {:induction false} ValueIsOnSomeLine(lines: seq<string>, prefix: string)
    requires Plain(prefix)
    ensures TextValue(lines, prefix).Some? <==> exists j :: 0 <= j < |lines| && MatchLine(lines[j], prefix).Some?
  {
    if lines != [] {
      MatchOverPieces(lines[0], prefix);
      ValueIsOnSomeLine(lines[1..], prefix);
      if j :| 0 < j < |lines| && MatchLine(lines[j], prefix).Some? { assert lines[1..][j - 1] == lines[j]; }
    }
  }

  lemma BeginningHasTheKey(line: string, key: string)
    requires IsIdentifier(key) && Begins(line, Setting(key, ""))
    ensures KeyOf(line) == Some(key)
  {
    var prefix := Setting(key, "");
    assert line == Setting(key, line[|prefix|..]);
    KeyOfSetting(key, line[|prefix|..]);
  }

  lemma SettingIsPlain(key: string)
    requires IsIdentifier(key)
    ensures Plain(Setting(key, ""))
  {
    forall i | 0 <= i < |key| + 1 ensures !IsTerminator(Setting(key, "")[i]) {
      if i < |key| { assert Setting(key, "")[i] == key[i]; }
    }
  }

  /** A key has a shadow if and only if an earlier line sets it right after a terminator inside that line. */
  lemma ShadowExactly(lines: seq<string>, key: string)
    requires IsIdentifier(key)
    ensures Shadow(lines, key).Some? <==>
      exists j, at: nat :: 0 <= j < LineOf(lines, key) && SetsAfter(lines[j], Setting(key, ""), at)
  {
    var n, prefix := LineOf(lines, key), Setting(key, "");
    SettingIsPlain(key);
    ValueIsOnSomeLine(lines[..n], prefix);
    forall j | 0 <= j < n
      ensures MatchLine(lines[..n][j], prefix).Some? <==> exists at: nat :: SetsAfter(lines[j], prefix, at)
    {
      MatchIsAfterTerminator(lines[j], prefix);
      if Begins(lines[j], prefix) { BeginningHasTheKey(lines[j], key); }
    }
  }

  /** Within the line of the key the search finds the value up to its first terminator. */
  lemma ValueOnItsLine(key: string, value: string)
    requires IsIdentifier(key)
    ensures Plain(Setting(key, ""))
    ensures LineRun(value) != [] ==> FirstValue(Pieces(Setting(key, value)), Setting(key, "")) == Some(LineRun(value))
  {
    var prefix := Setting(key, "");
    assert Setting(key, value) == prefix + value;
    SettingIsPlain(key);
    RunGoesOn(prefix, value);
    assert (prefix + LineRun(value))[..|prefix|] == prefix && (prefix + LineRun(value))[|prefix|..] == LineRun(value);
  }

  /** In an updated document the search finds a shadow of the key, or else the value up to its first terminator. */
  lemma WrittenValueIsFound(current: string, values: Values, n: nat)
    requires GoodValues(values) && n < |values|
    ensures var (key, value) := values[n];
            var shadow := Shadow(UpdatedLines(Lines(current), values), key);
            var found := MatchLine(Update(current, values), Setting(key, ""));
            && (shadow.Some? ==> found == shadow)
            && (shadow.None? && LineRun(value) != [] ==> found == Some(LineRun(value)))
  {
    var (key, value) := values[n];
    var updated, prefix := UpdatedLines(Lines(current), values), Setting(key, "");
    var i := ExactlyOneLinePerKey(Lines(current), values, n);
    KeyOfSetting(key, value);
    assert LineOf(updated, key) == i;
    ValueOnItsLine(key, value);
    MatchOverLines(updated, prefix);
    assert updated == updated[..i] + updated[i..] && updated[i..][0] == updated[i];
    TextValueConcat(updated[..i], updated[i..], prefix);
  }

  // ---------- Main results ----------

  lemma PlainIsItsRun(s: string)
    requires Plain(s)
    ensures LineRun(s) == s
  {
    RunGoesOn(s, []);
    assert s + [] == s;
  }

  lemma ReadableIsAccepted(secret: string)
    ensures LineRun(secret) != [] ==> (Accepted(LineRun(secret)) == Some(secret) <==> IsReadable(secret))
  {
    var run := LineRun(secret);
    RunIsPrefix(secret);
    if |run| == |secret| {
      assert run == secret;
      TrimKeeps(secret);
    } else if Plain(secret) {
      PlainIsItsRun(secret);
    }
  }

  /** A secret that starts with a terminator, or is empty, is never read. */
  lemma NothingUnreadableIsRead(contents: string, secret: string)
    requires LineRun(secret) == []
    ensures ReadBack(contents) != Some(secret)
  {
    if secret != [] { assert IsSpace(secret[0]); }
  }

  /**
   A persisted secret is read back if and only if it is readable (at least 32 characters, no surrounding
   white space, none of the terminators) and the key has no shadow, or the shadow has the same value.
   */
  lemma PersistedSecretIsRead(current: string, values: Values, n: nat)
    requires GoodValues(values) && n < |values| && values[n].0 == GATEWAY_KEY
    ensures var shadow := Shadow(UpdatedLines(Lines(current), values), GATEWAY_KEY);
            ReadBack(Update(current, values)) == Some(values[n].1) <==>
              if shadow.Some? then Accepted(shadow.value) == Some(values[n].1) else IsReadable(values[n].1)
  {
    WrittenValueIsFound(current, values, n);
    ReadableIsAccepted(values[n].1);
    if LineRun(values[n].1) == [] { NothingUnreadableIsRead(Update(current, values), values[n].1); }
  }

  /** Lines without terminators cast no shadow. */
  lemma PlainCastsNoShadow(lines: seq<string>, key: string)
    requires IsIdentifier(key) && forall j :: 0 <= j < |lines| ==> Plain(lines[j])
    ensures Shadow(lines, key).None?
  {
    ShadowExactly(lines, key);
  }

  const TERMINATORS := {'\n', '\r', '\U{2028}', '\U{2029}'}

  /** The only line breaks, Unicode ones included, are LF and CRLF. */
  ghost predicate NoStrayTerminator(s: string) {
    NoStrayReturn(s) && '\U{2028}' !in s && '\U{2029}' !in s
  }

  lemma LinesOfPlainDocument(current: string)
    requires NoStrayTerminator(current)
    ensures LinesAvoid(Lines(current), TERMINATORS)
  {
    NormalizeDropsReturns(current);
    PiecesAvoid(NormalizeBreaks(current), '\r');
    PiecesAvoid(NormalizeBreaks(current), '\U{2028}');
    PiecesAvoid(NormalizeBreaks(current), '\U{2029}');
  }

  lemma AvoidingIsPlain(s: string)
    requires forall c :: c in TERMINATORS ==> c !in s
    ensures Plain(s)
  {
  }

  /** In particular a secret that the backend generates or accepts is read from a document without such characters. */
  lemma PlainDocumentIsRead(current: string, values: Values, n: nat)
    requires GoodValues(values) && ValuesAvoid(values, TERMINATORS) && NoStrayTerminator(current)
    requires n < |values| && values[n].0 == GATEWAY_KEY
    ensures ReadBack(Update(current, values)) == Some(values[n].1) <==> IsReadable(values[n].1)
  {
    var updated := UpdatedLines(Lines(current), values);
    LinesOfPlainDocument(current);
    UpdatedAvoids(Lines(current), values, TERMINATORS);
    forall i | 0 <= i < |updated| ensures Plain(updated[i]) {
      assert updated[i] in updated;
      AvoidingIsPlain(updated[i]);
    }
    PlainCastsNoShadow(updated, GATEWAY_KEY);
    PersistedSecretIsRead(current, values, n);
  }

  /**
   `readGatewaySecret`, for the contents of the file. If that is a document `current` updated with values
   of which the n-th is the gateway secret, it is read back exactly as `PersistedSecretIsRead` says.
   */
  method ReadGatewaySecret(contents: string, ghost current: string, ghost values: Values, ghost n: nat)
    returns (secret: Option<string>)
    ensures (&& GoodValues(values) && n < |values| && values[n].0 == "REMOTE_GATEWAY_SHARED_SECRET"
             && contents == Update(current, values)) ==>
      var shadow := Shadow(UpdatedLines(Lines(current), values), "REMOTE_GATEWAY_SHARED_SECRET");
      secret == Some(values[n].1) <==>
        if shadow.Some? then Accepted(shadow.value) == Some(values[n].1) else IsReadable(values[n].1)
    ensures secret == ReadBack(contents) && (secret.Some? ==> IsTrimmed(secret.value))
  {
    if GoodValues(values) && n < |values| && values[n].0 == GATEWAY_KEY && contents == Update(current, values) {
      PersistedSecretIsRead(current, values, n);
    }
    var found := MatchLine(contents, Setting(GATEWAY_KEY, ""));
    if found.None? {
      return None;
    }
    var trimmed := Trim(found.value);
    secret := if |trimmed| >= MINIMUM_SECRET_LENGTH then Some(trimmed) else None;
  }
}
