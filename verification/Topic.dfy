// Building and validating MQTT topics.
module Topic {
  import opened Picking
  import opened Wrappers
  import opened Text

  datatype TopicError = Empty | Wildcard

  // ---- Sanitising one segment ----

  predicate Separator(c: char) {
    c == '/' || c == '#' || c == '+' || c == ' ' || c == '\t' || c == '\n' || c == '\r' || IsControl(c)
  }

  function Mapped(s: string): string {
    seq(|s|, i requires 0 <= i < |s| => if Separator(s[i]) then '_' else s[i])
  }

  predicate HasDouble(s: string) {
    |s| >= 2 && ((s[0] == '_' && s[1] == '_') || HasDouble(s[1..]))
  }

  // Left to right, every pair of underscores becomes one.
  function Replace(s: string): string {
    if |s| >= 2 && s[0] == '_' && s[1] == '_' then "_" + Replace(s[2..])
    else if s == "" then ""
    else [s[0]] + Replace(s[1..])
  }

  // Every run of underscores becomes one, in one pass.
  function Collapse(s: string): string {
    if s == "" then ""
    else Glue(s[0], Collapse(s[1..]))
  }

  function Glue(c: char, rest: string): string {
    if c == '_' && rest != "" && rest[0] == '_' then rest else [c] + rest
  }

  function TrimStartUnderscore(s: string): string {
    if s != "" && s[0] == '_' then TrimStartUnderscore(s[1..]) else s
  }

  function TrimEndUnderscore(s: string): string {
    if s != "" && s[|s| - 1] == '_' then TrimEndUnderscore(s[..|s| - 1]) else s
  }

  // What sanitising computes: separators become underscores, runs of them collapse, edges go.
  function Sanitized(value: string): string {
    TrimEndUnderscore(TrimStartUnderscore(Collapse(Mapped(Trim(value)))))
  }

  method SanitizeSegment(value: string) returns (sanitized: string)
    ensures sanitized == Sanitized(value)
  {
    sanitized := Mapped(Trim(value));
    while HasDouble(sanitized)
      invariant Collapse(sanitized) == Collapse(Mapped(Trim(value)))
      decreases |sanitized|
    {
      ReplaceCollapses(sanitized);
      ReplaceShrinks(sanitized);
      sanitized := Replace(sanitized);
    }
    CollapseNothing(sanitized);
    sanitized := TrimEndUnderscore(TrimStartUnderscore(sanitized));
  }

  lemma {:induction false} CollapseHead(s: string)
    requires s != ""
    ensures Collapse(s) != "" && Collapse(s)[0] == s[0]
  {
    if |s| > 1 {
      CollapseHead(s[1..]);
    }
  }

  // Rewriting pairs does not change what the runs collapse to.
  lemma {:induction false} ReplaceCollapses(s: string)
    ensures Collapse(Replace(s)) == Collapse(s)
    decreases |s|
  {
    if |s| >= 2 && s[0] == '_' && s[1] == '_' {
      ReplaceCollapses(s[2..]);
      assert Replace(s)[1..] == Replace(s[2..]);
      CollapseHead(s[1..]);
      assert s[1..][1..] == s[2..];
    } else if s != "" {
      ReplaceCollapses(s[1..]);
      assert Replace(s)[1..] == Replace(s[1..]);
    }
  }

  lemma {:induction false} ReplaceNeverGrows(s: string)
    ensures |Replace(s)| <= |s|
    decreases |s|
  {
    if |s| >= 2 && s[0] == '_' && s[1] == '_' {
      ReplaceNeverGrows(s[2..]);
    } else if s != "" {
      ReplaceNeverGrows(s[1..]);
    }
  }

  lemma {:induction false} ReplaceShrinks(s: string)
    requires HasDouble(s)
    ensures |Replace(s)| < |s|
    decreases |s|
  {
    if s[0] == '_' && s[1] == '_' {
      ReplaceNeverGrows(s[2..]);
    } else {
      ReplaceShrinks(s[1..]);
    }
  }

  lemma {:induction false} CollapseNothing(s: string)
    requires !HasDouble(s)
    ensures Collapse(s) == s
  {
    if s != "" {
      CollapseNothing(s[1..]);
    }
  }

  lemma {:induction false} CollapsedHasNone(s: string)
    ensures !HasDouble(Collapse(s))
  {
    if s != "" {
      CollapsedHasNone(s[1..]);
      var rest := Collapse(s[1..]);
      assert ([s[0]] + rest)[1..] == rest;
    }
  }

  // ---- What a sanitised segment looks like ----

  predicate AllPlain(s: string) {
    forall i :: 0 <= i < |s| ==> !Separator(s[i])
  }

  // No separator left, no double underscore, no underscore at either edge.
  predicate Clean(s: string) {
    AllPlain(s) && !HasDouble(s) && (s != "" ==> s[0] != '_' && s[|s| - 1] != '_')
  }

  lemma {:induction false} CollapsePlain(s: string)
    requires AllPlain(s)
    ensures AllPlain(Collapse(s))
  {
    if s != "" {
      CollapsePlain(s[1..]);
    }
  }

  lemma MappedPlain(s: string)
    ensures AllPlain(Mapped(s))
  {
  }

  lemma {:induction false} FrontHasNone(s: string)
    requires !HasDouble(s) && s != ""
    ensures !HasDouble(s[..|s| - 1])
  {
    if |s| > 2 {
      FrontHasNone(s[1..]);
      assert s[1..][..|s| - 2] == s[..|s| - 1][1..];
    }
  }

  lemma {:induction false} TrimStartClean(s: string)
    requires AllPlain(s) && !HasDouble(s)
    ensures var t := TrimStartUnderscore(s);
      AllPlain(t) && !HasDouble(t) && (t != "" ==> t[0] != '_' && t[|t| - 1] == s[|s| - 1]) && |t| <= |s|
  {
    if s != "" && s[0] == '_' {
      TrimStartClean(s[1..]);
    }
  }

  lemma {:induction false} TrimEndClean(s: string)
    requires AllPlain(s) && !HasDouble(s) && (s != "" ==> s[0] != '_')
    ensures Clean(TrimEndUnderscore(s)) && |TrimEndUnderscore(s)| <= |s|
  {
    if s != "" && s[|s| - 1] == '_' {
      FrontHasNone(s);
      TrimEndClean(s[..|s| - 1]);
    }
  }

  lemma SanitizedClean(value: string)
    ensures Clean(Sanitized(value))
  {
    var m := Mapped(Trim(value));
    MappedPlain(Trim(value));
    CollapsePlain(m);
    CollapsedHasNone(m);
    TrimStartClean(Collapse(m));
    TrimEndClean(TrimStartUnderscore(Collapse(m)));
  }

  // ---- Sanitising twice ----

  // The characters of the trimmed value that survive: no separators, no underscores.
  function Kept(s: string): string {
    if s == "" then ""
    else (if Separator(s[0]) || s[0] == '_' then "" else [s[0]]) + Kept(s[1..])
  }

  predicate WhitespaceEdge(s: string) {
    s != "" && (IsWhitespace(s[0]) || IsWhitespace(s[|s| - 1]))
  }

  lemma {:induction false} KeptMapped(s: string)
    ensures Kept(Mapped(s)) == Kept(s)
  {
    if s != "" {
      KeptMapped(s[1..]);
      assert Mapped(s)[1..] == Mapped(s[1..]);
    }
  }

  lemma {:induction false} KeptCollapse(s: string)
    ensures Kept(Collapse(s)) == Kept(s)
  {
    if s != "" {
      KeptCollapse(s[1..]);
      var rest := Collapse(s[1..]);
      assert ([s[0]] + rest)[1..] == rest;
    }
  }

  lemma {:induction false} KeptTrimStart(s: string)
    ensures Kept(TrimStartUnderscore(s)) == Kept(s)
  {
    if s != "" && s[0] == '_' {
      KeptTrimStart(s[1..]);
    }
  }

  lemma {:induction false} KeptSplits(s: string, t: string)
    ensures Kept(s + t) == Kept(s) + Kept(t)
  {
    if s == "" {
      assert s + t == t;
    } else {
      assert (s + t)[0] == s[0] && (s + t)[1..] == s[1..] + t;
      hide Separator;
      KeptSplits(s[1..], t);
    }
  }

  lemma {:induction false} KeptTrimEnd(s: string)
    ensures Kept(TrimEndUnderscore(s)) == Kept(s)
  {
    if s != "" && s[|s| - 1] == '_' {
      KeptTrimEnd(s[..|s| - 1]);
      KeptSplits(s[..|s| - 1], "_");
      assert s == s[..|s| - 1] + "_";
      assert Kept("_") == "";
    }
  }

  lemma KeptSanitized(value: string)
    ensures Kept(Sanitized(value)) == Kept(Trim(value))
  {
    var m := Mapped(Trim(value));
    KeptMapped(Trim(value));
    KeptCollapse(m);
    KeptTrimStart(Collapse(m));
    KeptTrimEnd(TrimStartUnderscore(Collapse(m)));
  }

  // A clean segment begins and ends with kept characters.
  lemma CleanEdges(t: string)
    requires Clean(t)
    ensures t == "" <==> Kept(t) == ""
    ensures t != "" ==> Kept(t)[0] == t[0] && Kept(t)[|Kept(t)| - 1] == t[|t| - 1]
  {
    if t != "" {
      var n := |t| - 1;
      KeptSplits(t[..n], [t[n]]);
      assert t == t[..n] + [t[n]];
      assert Kept([t[n]]) == [t[n]];
    }
  }

  lemma TrimUntouched(t: string)
    ensures Trim(t) == t <==> !WhitespaceEdge(t)
  {
    TrimStartShrinks(t);
    TrimEndShrinks(TrimStart(t));
  }

  lemma {:induction false} TrimStartShrinks(t: string)
    ensures |TrimStart(t)| <= |t| && (t != "" && IsWhitespace(t[0]) ==> |TrimStart(t)| < |t|)
  {
    if t != "" && IsWhitespace(t[0]) {
      TrimStartShrinks(t[1..]);
    }
  }

  lemma {:induction false} TrimEndShrinks(t: string)
    ensures |TrimEnd(t)| <= |t| && (t != "" && IsWhitespace(t[|t| - 1]) ==> |TrimEnd(t)| < |t|)
  {
    if t != "" && IsWhitespace(t[|t| - 1]) {
      TrimEndShrinks(t[..|t| - 1]);
    }
  }

  lemma {:induction false} CollapseShrinks(s: string)
    ensures |Collapse(s)| <= |s|
  {
    if s != "" {
      CollapseShrinks(s[1..]);
    }
  }

  lemma {:induction false} TrimUnderscoreShrinks(s: string)
    ensures |TrimStartUnderscore(s)| <= |s|
    ensures |TrimEndUnderscore(s)| <= |s|
  {
    if s != "" {
      TrimUnderscoreShrinks(s[1..]);
      TrimUnderscoreShrinks(s[..|s| - 1]);
    }
  }

  lemma SanitizedShrinks(t: string)
    ensures |Sanitized(t)| <= |Trim(t)|
  {
    var m := Mapped(Trim(t));
    CollapseShrinks(m);
    TrimUnderscoreShrinks(Collapse(m));
    TrimUnderscoreShrinks(TrimStartUnderscore(Collapse(m)));
  }

  // A clean segment is left alone exactly when no whitespace stands at its edges.
  lemma CleanStays(t: string)
    requires Clean(t)
    ensures Sanitized(t) == t <==> !WhitespaceEdge(t)
  {
    TrimUntouched(t);
    if WhitespaceEdge(t) {
      SanitizedShrinks(t);
      TrimStartShrinks(t);
      TrimEndShrinks(TrimStart(t));
    } else {
      assert Mapped(t) == t;
      CollapseNothing(t);
    }
  }

  // Sanitising twice is sanitising once exactly when the first and the last kept character of the
  // trimmed value, if any, are no whitespace.
  lemma IdempotentExactly(value: string)
    ensures Sanitized(Sanitized(value)) == Sanitized(value) <==> !WhitespaceEdge(Kept(Trim(value)))
  {
    SanitizedClean(value);
    KeptSanitized(value);
    CleanEdges(Sanitized(value));
    CleanStays(Sanitized(value));
  }

  // ASCII whitespace is a separator, so on ASCII text sanitising is idempotent.
  lemma AsciiIdempotent(value: string)
    requires forall i :: 0 <= i < |value| ==> value[i] as int < 128
    ensures Sanitized(Sanitized(value)) == Sanitized(value)
  {
    IdempotentExactly(value);
    TrimAscii(value);
    KeptAscii(Trim(value));
  }

  predicate Ascii(s: string) {
    forall i :: 0 <= i < |s| ==> s[i] as int < 128
  }

  lemma {:induction false} TrimStartAscii(s: string)
    requires Ascii(s)
    ensures Ascii(TrimStart(s))
  {
    if s != "" && IsWhitespace(s[0]) {
      TrimStartAscii(s[1..]);
    }
  }

  lemma {:induction false} TrimEndAscii(s: string)
    requires Ascii(s)
    ensures Ascii(TrimEnd(s))
  {
    if s != "" && IsWhitespace(s[|s| - 1]) {
      TrimEndAscii(s[..|s| - 1]);
    }
  }

  lemma TrimAscii(s: string)
    requires Ascii(s)
    ensures Ascii(Trim(s))
  {
    TrimStartAscii(s);
    TrimEndAscii(TrimStart(s));
  }

  lemma {:induction false} KeptAscii(s: string)
    requires Ascii(s)
    ensures forall i :: 0 <= i < |Kept(s)| ==> !IsWhitespace(Kept(s)[i])
  {
    if s != "" {
      KeptAscii(s[1..]);
    }
  }

  // A no-break space between underscores: it survives the first time, not the second.
  lemma NotIdempotentOnAll()
    ensures var value := ['_', '\U{00A0}', '_']; Sanitized(Sanitized(value)) != Sanitized(value)
  {
    var space := '\U{00A0}';
    var value := ['_', space, '_'];
    TrimUntouched(value);
    assert value[1..] == [space, '_'] && value[1..][1..] == ['_'];
    assert Kept(['_']) == "";
    assert Kept([space, '_']) == [space];
    IdempotentExactly(value);
  }

  // ---- Topics ----

  // The levels between slashes; always at least one.
  function Split(s: string): (levels: seq<string>)
    ensures levels != []
  {
    if s == "" then [""]
    else
      var rest := Split(s[1..]);
      if s[0] == '/' then [""] + rest else [[s[0]] + rest[0]] + rest[1..]
  }

  function Join(levels: seq<string>): string {
    if levels == [] then ""
    else if |levels| == 1 then levels[0]
    else levels[0] + "/" + Join(levels[1..])
  }

  predicate Blank(s: string) {
    Trim(s) == ""
  }

  // Drops the blank levels and sanitises the others; a level of separators only stays, empty.
  function CleanLevels(levels: seq<string>): seq<string> {
    if levels == [] then []
    else (if Blank(levels[0]) then [] else [Sanitized(levels[0])]) + CleanLevels(levels[1..])
  }

  function TrimEndOf(s: string, c: char): string {
    if s != "" && s[|s| - 1] == c then TrimEndOf(s[..|s| - 1], c) else s
  }

  function TrimStartOf(s: string, c: char): string {
    if s != "" && s[0] == c then TrimStartOf(s[1..], c) else s
  }

  function NormalizePrefix(prefix: string): string {
    Join(CleanLevels(Split(TrimEndOf(TrimStartOf(TrimEndOf(Trim(prefix), '#'), '/'), '/'))))
  }

  function JoinTopic(a: string, b: string): string {
    Join(CleanLevels(Split(a) + Split(b)))
  }

  // `tagPath` is the point's own tag path or, when that is blank, its default.
  function TelemetryTopic(prefix: string, tagPath: string): string {
    JoinTopic(NormalizePrefix(prefix), tagPath)
  }

  function EnvelopeTopic(devicePrefix: string, id: string): string {
    TrimEndOf(TrimEnd(devicePrefix), '/') + "/" + Sanitized(id) + "/telemetry"
  }

  predicate Wild(s: string) {
    '#' in s || '+' in s
  }

  function Validate(topic: string): Result<(), TopicError> {
    var trimmed := Trim(topic);
    if trimmed == "" then Err(Empty)
    else if Wild(trimmed) then Err(Wildcard)
    else Ok(())
  }

  lemma {:induction false} TrimStartKeeps(s: string, c: char)
    requires !IsWhitespace(c)
    ensures c in TrimStart(s) <==> c in s
  {
    if s != "" && IsWhitespace(s[0]) {
      TrimStartKeeps(s[1..], c);
    }
  }

  lemma {:induction false} TrimEndKeeps(s: string, c: char)
    requires !IsWhitespace(c)
    ensures c in TrimEnd(s) <==> c in s
  {
    if s != "" && IsWhitespace(s[|s| - 1]) {
      TrimEndKeeps(s[..|s| - 1], c);
      assert s == s[..|s| - 1] + [s[|s| - 1]];
    }
  }

  // Trimming loses nothing but whitespace.
  lemma TrimKeeps(s: string, c: char)
    requires !IsWhitespace(c)
    ensures c in Trim(s) <==> c in s
  {
    TrimStartKeeps(s, c);
    TrimEndKeeps(TrimStart(s), c);
  }

  lemma PlainNotWild(s: string)
    requires AllPlain(s)
    ensures !Wild(s) && '/' !in s
  {
  }

  predicate AllClean(levels: seq<string>) {
    forall i :: 0 <= i < |levels| ==> Clean(levels[i])
  }

  lemma {:induction false} JoinedNotWild(levels: seq<string>)
    requires AllClean(levels)
    ensures !Wild(Join(levels))
  {
    if |levels| == 1 {
      PlainNotWild(levels[0]);
    } else if |levels| > 1 {
      PlainNotWild(levels[0]);
      JoinedNotWild(levels[1..]);
    }
  }

  lemma {:induction false} LevelsClean(levels: seq<string>)
    ensures AllClean(CleanLevels(levels))
  {
    if levels != [] {
      LevelsClean(levels[1..]);
      SanitizedClean(levels[0]);
    }
  }

  // ---- Which levels, and in what order ----

  predicate NoSlash(levels: seq<string>) {
    forall i :: 0 <= i < |levels| ==> '/' !in levels[i]
  }

  // Splitting cuts at every slash and nowhere else.
  lemma {:induction false} SplitJoins(s: string)
    ensures Join(Split(s)) == s && NoSlash(Split(s))
  {
    if s != "" {
      SplitJoins(s[1..]);
      var rest := Split(s[1..]);
      assert s == [s[0]] + s[1..];
      if s[0] == '/' {
        assert Split(s) == [""] + rest && ([""] + rest)[1..] == rest;
      } else {
        assert Split(s) == [[s[0]] + rest[0]] + rest[1..];
        hide Split;
        JoinWithHead(s[0], rest);
      }
    }
  }

  lemma Regroup(a: string, b: string, c: string, d: string)
    ensures (a + b) + c + d == a + (b + c + d)
  {
  }

  lemma JoinWithHead(c: char, rest: seq<string>)
    requires rest != [] && NoSlash(rest) && c != '/'
    ensures Join([[c] + rest[0]] + rest[1..]) == [c] + Join(rest)
    ensures NoSlash([[c] + rest[0]] + rest[1..])
  {
    var head, back := [c] + rest[0], rest[1..];
    var levels := [head] + back;
    assert levels[0] == head && levels[1..] == back;
    assert '/' !in head;
    if |rest| > 1 {
      assert Join(levels) == head + "/" + Join(back);
      assert Join(rest) == rest[0] + "/" + Join(back);
      hide Join;
      Regroup([c], rest[0], "/", Join(back));
    } else {
      assert Join(levels) == head && Join(rest) == rest[0];
    }
    hide *;
    NoSlashHead(head, back, rest);
  }

  lemma NoSlashHead(head: string, back: seq<string>, rest: seq<string>)
    requires rest != [] && NoSlash(rest) && back == rest[1..] && '/' !in head
    ensures NoSlash([head] + back)
  {
    var levels := [head] + back;
    forall i | 0 <= i < |levels|
      ensures '/' !in levels[i]
    {
      if i > 0 {
        assert levels[i] == rest[i];
      }
    }
  }

  lemma {:induction false} SplitLevel(level: string)
    requires '/' !in level
    ensures Split(level) == [level]
  {
    if level != "" {
      assert level == [level[0]] + level[1..];
      SplitLevel(level[1..]);
    }
  }

  lemma {:induction false} SplitFirst(level: string, rest: string)
    requires '/' !in level
    ensures Split(level + "/" + rest) == [level] + Split(rest)
  {
    var s := level + "/" + rest;
    if level == "" {
      assert s[1..] == rest;
    } else {
      assert level == [level[0]] + level[1..];
      assert s[1..] == level[1..] + "/" + rest;
      SplitFirst(level[1..], rest);
      assert Split(s) == [[s[0]] + level[1..]] + Split(rest);
    }
  }

  lemma {:induction false} JoinSplits(levels: seq<string>)
    requires levels != [] && NoSlash(levels)
    ensures Split(Join(levels)) == levels
  {
    if |levels| == 1 {
      SplitLevel(levels[0]);
    } else {
      JoinSplits(levels[1..]);
      SplitFirst(levels[0], Join(levels[1..]));
    }
  }

  lemma {:induction false} JoinAppends(a: seq<string>, b: seq<string>)
    requires a != [] && b != []
    ensures Join(a + b) == Join(a) + "/" + Join(b)
  {
    if |a| == 1 {
      assert (a + b)[1..] == b;
    } else {
      assert (a + b)[1..] == a[1..] + b;
      JoinAppends(a[1..], b);
    }
  }

  lemma {:induction false} CleanLevelsSplit(a: seq<string>, b: seq<string>)
    ensures CleanLevels(a + b) == CleanLevels(a) + CleanLevels(b)
  {
    if a == [] {
      assert a + b == b;
    } else {
      assert (a + b)[1..] == a[1..] + b;
      CleanLevelsSplit(a[1..], b);
    }
  }

  predicate Present(level: string) {
    !Blank(level)
  }

  // The levels that are not blank, each sanitised, in their order.
  lemma {:induction false} CleanLevelsPick(levels: seq<string>)
    ensures Picks(levels, Present, Sanitized, CleanLevels(levels))
  {
    if levels == [] {
      PicksNone(Present, Sanitized);
    } else {
      var front, last := levels[..|levels| - 1], levels[|levels| - 1];
      assert levels == front + [last];
      CleanLevelsPick(front);
      PicksOneMore(front, last, Present, Sanitized, CleanLevels(front));
      CleanLevelsSplit(front, [last]);
      assert CleanLevels([last]) == if Present(last) then [Sanitized(last)] else [];
      hide Picks, Sanitized, Blank;
    }
  }

  // A telemetry topic is the levels of the normalised prefix, then those of the tag path: of each the
  // ones that are not blank, sanitised, in order.
  lemma TelemetryLevels(prefix: string, tagPath: string) returns (ps: seq<string>, ts: seq<string>)
    ensures Picks(Split(NormalizePrefix(prefix)), Present, Sanitized, ps)
    ensures Picks(Split(tagPath), Present, Sanitized, ts)
    ensures TelemetryTopic(prefix, tagPath) == Join(ps + ts)
  {
    ps, ts := CleanLevels(Split(NormalizePrefix(prefix))), CleanLevels(Split(tagPath));
    CleanLevelsPick(Split(NormalizePrefix(prefix)));
    CleanLevelsPick(Split(tagPath));
    CleanLevelsSplit(Split(NormalizePrefix(prefix)), Split(tagPath));
    hide Picks, NormalizePrefix, Split, CleanLevels;
  }

  predicate AllOf(s: string, c: char) {
    forall i :: 0 <= i < |s| ==> s[i] == c
  }

  lemma {:induction false} TrimEndOfIs(s: string, c: char) returns (cut: string)
    ensures s == TrimEndOf(s, c) + cut && AllOf(cut, c)
    ensures TrimEndOf(s, c) != "" ==> TrimEndOf(s, c)[|TrimEndOf(s, c)| - 1] != c
  {
    if s != "" && s[|s| - 1] == c {
      var front := TrimEndOfIs(s[..|s| - 1], c);
      cut := front + [c];
    } else {
      cut := "";
    }
  }

  lemma {:induction false} TrimStartOfIs(s: string, c: char) returns (cut: string)
    ensures s == cut + TrimStartOf(s, c) && AllOf(cut, c)
    ensures TrimStartOf(s, c) != "" ==> TrimStartOf(s, c)[0] != c
  {
    if s != "" && s[0] == c {
      var back := TrimStartOfIs(s[1..], c);
      cut := [c] + back;
    } else {
      cut := "";
    }
  }

  // Normalising a prefix takes the number signs off its end, then the slashes off both ends, and
  // keeps the levels of what is left that are not blank, sanitised, in order.
  lemma NormalizedLevels(prefix: string) returns (slashes: string, core: string, more: string, hashes: string, ps: seq<string>)
    ensures Trim(prefix) == slashes + core + more + hashes
    ensures AllOf(slashes, '/') && AllOf(more, '/') && AllOf(hashes, '#')
    ensures core != "" ==> core[0] != '/' && core[|core| - 1] != '/'
    ensures slashes + core + more != "" ==> (slashes + core + more)[|slashes + core + more| - 1] != '#'
    ensures Picks(Split(core), Present, Sanitized, ps) && NormalizePrefix(prefix) == Join(ps)
  {
    var a := TrimEndOf(Trim(prefix), '#');
    var b := TrimStartOf(a, '/');
    core := TrimEndOf(b, '/');
    ps := CleanLevels(Split(core));
    assert NormalizePrefix(prefix) == Join(ps);
    hide *;
    hashes := TrimEndOfIs(Trim(prefix), '#');
    slashes := TrimStartOfIs(a, '/');
    more := TrimEndOfIs(b, '/');
    CleanLevelsPick(Split(core));
    assert slashes + core + more == slashes + (core + more);
    assert core != "" ==> core[0] == (core + more)[0];
  }

  // A level that sanitising leaves as it is.
  predicate Done(level: string) {
    level != "" && Clean(level) && !WhitespaceEdge(level)
  }

  ghost predicate AllDone(levels: seq<string>) {
    levels != [] && forall i :: 0 <= i < |levels| ==> Done(levels[i])
  }

  lemma DoneStays(level: string)
    requires Done(level)
    ensures Sanitized(level) == level && Present(level) && '/' !in level
  {
    CleanStays(level);
    TrimUntouched(level);
    PlainNotWild(level);
  }

  lemma {:induction false} DoneLevelsStay(levels: seq<string>)
    requires AllDone(levels)
    ensures CleanLevels(levels) == levels && NoSlash(levels)
  {
    DoneStays(levels[0]);
    if |levels| > 1 {
      DoneLevelsStay(levels[1..]);
    }
    hide Sanitized, Done, Blank, Present;
    assert CleanLevels([]) == [];
  }

  lemma {:induction false} JoinEdges(levels: seq<string>)
    requires AllDone(levels)
    ensures var s := Join(levels);
      s != "" && s[0] == levels[0][0] && s[|s| - 1] == levels[|levels| - 1][|levels[|levels| - 1]| - 1]
  {
    assert Done(levels[0]);
    if |levels| > 1 {
      JoinEdges(levels[1..]);
    }
  }

  lemma DoneEdges(levels: seq<string>)
    requires AllDone(levels)
    ensures var s := Join(levels);
      s != "" && !WhitespaceEdge(s) && s[0] != '/' && s[|s| - 1] != '/' && s[|s| - 1] != '#'
  {
    JoinEdges(levels);
    var first, last := levels[0], levels[|levels| - 1];
    assert Done(first) && Done(last);
    assert !Separator(first[0]) && !Separator(last[|last| - 1]);
  }

  // A prefix of finished levels is normal, and one written as a subscription normalises to it.
  lemma DonePrefixStays(ps: seq<string>)
    requires AllDone(ps)
    ensures NormalizePrefix(Join(ps)) == Join(ps)
    ensures NormalizePrefix("/" + Join(ps) + "/#") == Join(ps)
  {
    var s := Join(ps);
    DoneEdges(ps);
    DoneLevelsStay(ps);
    JoinSplits(ps);
    hide Join, CleanLevels, Split;
    CutEdges(s);
  }

  lemma CutOneEnd(s: string, c: char)
    requires s != "" ==> s[|s| - 1] != c
    ensures TrimEndOf(s, c) == s == TrimEndOf(s + [c], c)
  {
    assert (s + [c])[..|s|] == s;
  }

  lemma CutOneStart(s: string, c: char)
    requires s != "" ==> s[0] != c
    ensures TrimStartOf(s, c) == s == TrimStartOf([c] + s, c)
  {
    assert ([c] + s)[1..] == s;
  }

  lemma CutEdges(s: string)
    requires s != "" && !WhitespaceEdge(s) && s[0] != '/' && s[|s| - 1] != '/' && s[|s| - 1] != '#'
    ensures Trim(s) == TrimEndOf(s, '#') == TrimStartOf(s, '/') == TrimEndOf(s, '/') == s
    ensures Trim("/" + s + "/#") == "/" + s + "/#"
    ensures TrimEndOf("/" + s + "/#", '#') == "/" + s + "/"
    ensures TrimStartOf("/" + s + "/", '/') == s + "/"
    ensures TrimEndOf(s + "/", '/') == s
  {
    var v := s + ['/'];
    var u := ['/'] + v;
    var t := u + ['#'];
    Decorated(s);
    TrimUntouched(s);
    TrimUntouched(t);
    assert u[|u| - 1] == '/' && v[0] == s[0] && t[0] == '/' && t[|t| - 1] == '#';
    assert !WhitespaceEdge(t);
    hide *;
    CutOneEnd(s, '#');
    CutOneEnd(u, '#');
    CutOneStart(s, '/');
    CutOneStart(v, '/');
    CutOneEnd(s, '/');
  }

  lemma Decorated(s: string)
    ensures "/" + s + "/#" == (['/'] + (s + ['/'])) + ['#']
    ensures "/" + s + "/" == ['/'] + (s + ['/']) && s + "/" == s + ['/']
  {
  }

  // For a prefix and a tag path of finished levels the topic is the one, a slash, and the other.
  lemma DoneTopic(ps: seq<string>, ts: seq<string>)
    requires AllDone(ps) && AllDone(ts)
    ensures TelemetryTopic(Join(ps), Join(ts)) == Join(ps) + "/" + Join(ts)
  {
    DonePrefixStays(ps);
    DoneLevelsStay(ps);
    DoneLevelsStay(ts);
    JoinSplits(ps);
    JoinSplits(ts);
    CleanLevelsSplit(ps, ts);
    JoinAppends(ps, ts);
    hide NormalizePrefix, Split, CleanLevels, Join, Done;
  }

  // An envelope topic is the prefix as it stands, but for slashes at its end, and the device id.
  lemma DoneEnvelope(prefix: string, id: string)
    requires Done(id) && (prefix != "" ==> prefix[|prefix| - 1] != '/' && !IsWhitespace(prefix[|prefix| - 1]))
    ensures EnvelopeTopic(prefix, id) == prefix + "/" + id + "/telemetry"
    ensures EnvelopeTopic(prefix + "/", id) == prefix + "/" + id + "/telemetry"
  {
    DoneStays(id);
    hide Sanitized;
    assert TrimEnd(prefix) == prefix && TrimEndOf(prefix, '/') == prefix;
    var slashed := prefix + "/";
    assert TrimEnd(slashed) == slashed && slashed[..|slashed| - 1] == prefix;
  }

  lemma {:induction false} NoDoubleJoins(a: string, b: string)
    requires !HasDouble(a) && !HasDouble(b) && a != "" && a[|a| - 1] != '_' && (b != "" ==> b[0] != '_')
    ensures !HasDouble(a + "_" + b)
    decreases |a|
  {
    var s := a + "_" + b;
    if |a| == 1 {
      assert s[1..] == "_" + b;
      assert s[1..][1..] == b;
    } else {
      assert s[1..] == a[1..] + "_" + b;
      NoDoubleJoins(a[1..], b);
    }
  }

  // Between two finished levels a separator becomes one underscore.
  lemma SeparatorBecomesUnderscore(a: string, c: char, b: string)
    requires Done(a) && Done(b) && Separator(c)
    ensures Sanitized(a + [c] + b) == a + "_" + b
  {
    var s, t := a + [c] + b, a + "_" + b;
    TrimUntouched(s);
    assert Mapped(s) == t;
    NoDoubleJoins(a, b);
    CollapseNothing(t);
    hide Trim, Mapped, Collapse;
    assert TrimStartUnderscore(t) == t && TrimEndUnderscore(t) == t;
  }

  // Whatever the prefix and the tag path hold, a telemetry topic is a sequence of clean levels, so it
  // is never rejected as a wildcard; only an empty one is rejected.
  lemma TelemetryNeverWild(prefix: string, tagPath: string)
    ensures exists levels :: TelemetryTopic(prefix, tagPath) == Join(levels) && AllClean(levels)
    ensures Validate(TelemetryTopic(prefix, tagPath)) ==
      if Blank(TelemetryTopic(prefix, tagPath)) then Err(Empty) else Ok(())
  {
    var topic := TelemetryTopic(prefix, tagPath);
    var levels := CleanLevels(Split(NormalizePrefix(prefix)) + Split(tagPath));
    LevelsClean(Split(NormalizePrefix(prefix)) + Split(tagPath));
    JoinedNotWild(levels);
    assert AllClean(levels);
    assert topic == Join(levels);
    TrimKeeps(topic, '#');
    TrimKeeps(topic, '+');
  }

  // An envelope topic is valid exactly when the prefix holds no wildcard, whatever the device id, so
  // checking one id checks all.
  lemma EnvelopeValidExactly(devicePrefix: string, id: string)
    ensures Validate(EnvelopeTopic(devicePrefix, id)) ==
      if Wild(TrimEndOf(TrimEnd(devicePrefix), '/')) then Err(Wildcard) else Ok(())
  {
    var prefix := TrimEndOf(TrimEnd(devicePrefix), '/');
    var topic := EnvelopeTopic(devicePrefix, id);
    SanitizedClean(id);
    PlainNotWild(Sanitized(id));
    TrimKeeps(topic, '#');
    TrimKeeps(topic, '+');
    TrimKeeps(topic, '/');
    assert '/' in topic by {
      assert topic[|prefix|] == '/';
    }
    hide Sanitized, Trim, TrimEndOf, TrimEnd;
    assert !Wild("/") && !Wild("/telemetry");
    assert Wild(topic) <==> Wild(prefix);
  }

  lemma OneSampleChecksAll(devicePrefix: string, id: string)
    ensures Validate(EnvelopeTopic(devicePrefix, "sample")) == Validate(EnvelopeTopic(devicePrefix, id))
  {
    hide *;
    EnvelopeValidExactly(devicePrefix, "sample");
    EnvelopeValidExactly(devicePrefix, id);
  }
}
