/** `rewrite` on whole file texts, and the rename table it is run with. */
module RescopeFile {
  import opened Options
  import opened Text
  import opened RescopePieces
  import opened RescopeLaws
  import opened RescopeLine
  import opened RescopeHead
  import opened RescopeText
  import opened RescopeSegments

  // ---- The rewrite adds no line break ----

  lemma {:induction false} TokensAddNoNewline(s: string, rename: Rename)
    requires Lacks(s, '\n') && Lacks(rename.to, '\n')
    ensures Lacks(RewriteTokens(s, rename), '\n')
    decreases |s|
  {
    if s != [] {
      match TokenLength(s, rename.from)
      case Some(n) => TokensAddNoNewline(s[n..], rename);
      case None => TokensAddNoNewline(s[1..], rename);
    }
  }

  lemma YamlAddsNoNewline(s: string, rename: Rename)
    requires Lacks(s, '\n') && Lacks(rename.to, '\n')
    ensures Lacks(RewriteYaml(s, rename), '\n')
  {
    if YamlRest(s).Some? {
      var p := YamlRestSplits(s);
      assert forall c :: c in YamlRest(s).value ==> c in s;
    }
  }

  lemma {:induction false} LineAddsNoNewline(s: string, renames: seq<Rename>)
    requires Lacks(s, '\n') && WellFormed(renames)
    ensures Lacks(RewriteLineSpec(s, renames), '\n')
    decreases renames
  {
    if renames != [] {
      NamesDiffer(renames, 0, 0);
      TokensAddNoNewline(s, renames[0]);
      YamlAddsNoNewline(RewriteTokens(s, renames[0]), renames[0]);
      TailWellFormed(renames);
      LineAddsNoNewline(RewriteOnce(s, renames[0]), renames[1..]);
    }
  }

  lemma {:induction false} WholeAddsNoNewline(s: string, renames: seq<Rename>)
    requires Lacks(s, '\n') && WellFormed(renames)
    ensures Lacks(RewriteWhole(s, renames), '\n')
    decreases |s|
  {
    if OneSegment(s) {
      WholeOfSegment(s, renames);
      LineAddsNoNewline(s, renames);
    } else {
      var a, t, b := FirstSegment(s);
      WholeBySegments(a, t, b, renames);
      LineAddsNoNewline(a, renames);
      WholeAddsNoNewline(b, renames);
    }
  }

  lemma {:induction false} LinesAddNoNewline(lines: seq<string>, file: File, insideFence: bool, renames: seq<Rename>)
    requires AllLack(lines, '\n') && WellFormed(renames)
    ensures AllLack(RewriteLines(lines, file, insideFence, renames), '\n')
    ensures |RewriteLines(lines, file, insideFence, renames)| == |lines|
    decreases lines
  {
    if lines != [] {
      var fence := file.markdown && IsFence(lines[0]);
      WholeAddsNoNewline(lines[0], renames);
      LinesAddNoNewline(lines[1..], file, if fence then !insideFence else insideFence, renames);
    }
  }

  // ---- Whole files ----

  function RewriteText(text: string, file: File, renames: seq<Rename>): string {
    Join(RewriteLines(Split(text, '\n'), file, false, renames), '\n')
  }

  function CountChanged(before: seq<string>, after: seq<string>): nat
    requires |before| == |after|
  {
    if before == [] then 0
    else CountChanged(before[..|before| - 1], after[..|after| - 1])
         + (if before[|before| - 1] != after[|after| - 1] then 1 else 0)
  }

  lemma CountOneMore(before: seq<string>, after: seq<string>, x: string, y: string)
    requires |before| == |after|
    ensures CountChanged(before + [x], after + [y]) == CountChanged(before, after) + (if x != y then 1 else 0)
  {
    assert (before + [x])[..|before|] == before && (after + [y])[..|after|] == after;
  }

  /** The per-line closure of `rewrite`, with the fence flag it toggles. */
  method RewriteOne(line: string, file: File, insideFence: bool, renames: seq<Rename>, ghost rest: seq<string>)
    returns (next: string, insideAfter: bool)
    ensures RewriteLines([line] + rest, file, insideFence, renames)
            == [next] + RewriteLines(rest, file, insideAfter, renames)
  {
    next, insideAfter := line, insideFence;
    assert ([line] + rest)[1..] == rest;
    if file.markdown {
      if IsFence(line) {
        insideAfter := !insideFence;
        return;
      }
      if !insideFence && !file.prose {
        return;
      }
    }
    next := RewriteLine(line, renames);
  }

  lemma OneMoreLine(lines: seq<string>, i: nat)
    requires i < |lines|
    ensures lines[i..] == [lines[i]] + lines[i + 1..] && lines[..i + 1] == lines[..i] + [lines[i]]
  {
  }

  /** `rewrite`: the new text and the number of lines it changes. */
  method Rewrite(text: string, file: File, renames: seq<Rename>) returns (out: string, changed: nat)
    ensures out == RewriteText(text, file, renames)
    ensures var before, after := Split(text, '\n'), RewriteLines(Split(text, '\n'), file, false, renames);
            |before| == |after| && changed == CountChanged(before, after)
  {
    var lines := Split(text, '\n');
    ghost var all := RewriteLines(lines, file, false, renames);
    var insideFence := false;
    var rewritten: seq<string> := [];
    changed := 0;
    for i := 0 to |lines|
      invariant |rewritten| == i
      invariant rewritten + RewriteLines(lines[i..], file, insideFence, renames) == all
      invariant changed == CountChanged(lines[..i], rewritten)
    {
      OneMoreLine(lines, i);
      var next;
      ghost var rest := lines[i + 1..];
      next, insideFence := RewriteOne(lines[i], file, insideFence, renames, rest);
      Regroup(rewritten, [next], RewriteLines(rest, file, insideFence, renames));
      CountOneMore(lines[..i], rewritten, lines[i], next);
      if next != lines[i] {
        changed := changed + 1;
      }
      rewritten := rewritten + [next];
    }
    assert lines[..|lines|] == lines && lines[|lines|..] == [];
    assert rewritten + [] == rewritten == all;
    out := Join(rewritten, '\n');
  }

  lemma RewriteTextLines(text: string, file: File, renames: seq<Rename>)
    requires WellFormed(renames)
    ensures Split(RewriteText(text, file, renames), '\n') == RewriteLines(Split(text, '\n'), file, false, renames)
  {
    SplitJoins(text, '\n');
    LinesAddNoNewline(Split(text, '\n'), file, false, renames);
    JoinSplits(RewriteLines(Split(text, '\n'), file, false, renames), '\n');
  }

  lemma SplitInjective(a: string, b: string)
    ensures a == b <==> Split(a, '\n') == Split(b, '\n')
  {
    SplitJoins(a, '\n');
    SplitJoins(b, '\n');
  }

  /** A second run changes nothing exactly when, on the lines that follow the rename,
      no two tokens of one name share a quote. */
  lemma FileIdempotentIff(text: string, file: File, renames: seq<Rename>)
    requires WellFormed(renames)
    ensures var once := RewriteText(text, file, renames);
            RewriteText(once, file, renames) == once <==>
            EligibleLines(Split(text, '\n'), file, false, line => AllUnshared(line, renames))
  {
    var once := RewriteText(text, file, renames);
    RewriteTextLines(text, file, renames);
    RewriteTextLines(once, file, renames);
    SplitInjective(RewriteText(once, file, renames), once);
    LinesIdempotentIff(Split(text, '\n'), file, false, renames);
  }

  /** The reverse run restores the file exactly when the lines that follow the rename
      were free of target names. */
  lemma FileUndoIff(text: string, file: File, renames: seq<Rename>)
    requires WellFormed(renames)
    ensures RewriteText(RewriteText(text, file, renames), file, Reversed(renames)) == text <==>
            EligibleLines(Split(text, '\n'), file, false, line => AllTargetFree(line, renames))
  {
    var once := RewriteText(text, file, renames);
    ReversedWellFormed(renames);
    RewriteTextLines(text, file, renames);
    RewriteTextLines(once, file, Reversed(renames));
    SplitInjective(RewriteText(once, file, Reversed(renames)), text);
    LinesUndoIff(Split(text, '\n'), file, false, renames);
  }

  // ---- The mapping this codemod applies ----

  const UPSTREAM_PLUGIN := "@cordisjs/plugin-"
  const SCOPE := "@deepseek-ai/"
  const SCOPED_PLUGIN := "cordis-plugin-"

  function Core(name: string): Rename {
    Rename(name, SCOPE + name)
  }

  function Plugin(name: string): Rename {
    Rename(UPSTREAM_PLUGIN + name, SCOPE + (SCOPED_PLUGIN + name))
  }

  const CORE := ["cordis", "cosmokit", "schemastery"]
  const PLUGINS := ["loader", "include", "group", "timer", "hmr", "logger-console"]

  const RENAMES: seq<Rename> := [
    Rename("cordis", "@deepseek-ai/cordis"),
    Rename("cosmokit", "@deepseek-ai/cosmokit"),
    Rename("schemastery", "@deepseek-ai/schemastery"),
    Rename("@cordisjs/plugin-loader", "@deepseek-ai/cordis-plugin-loader"),
    Rename("@cordisjs/plugin-include", "@deepseek-ai/cordis-plugin-include"),
    Rename("@cordisjs/plugin-group", "@deepseek-ai/cordis-plugin-group"),
    Rename("@cordisjs/plugin-timer", "@deepseek-ai/cordis-plugin-timer"),
    Rename("@cordisjs/plugin-hmr", "@deepseek-ai/cordis-plugin-hmr"),
    Rename("@cordisjs/plugin-logger-console", "@deepseek-ai/cordis-plugin-logger-console")
  ]

  lemma SeparateAt(x: string, y: string, k: nat)
    requires k < |x| && k < |y| && x[k] != y[k]
    ensures Separate(x, y)
  {
    assert (x + "/")[k] == x[k] && (y + "/")[k] == y[k];
  }

  lemma SeparateLonger(x: string, y: string)
    requires |x| < |y| && y[|x|] != '/'
    ensures Separate(x, y)
  {
    assert (x + "/")[|x|] == '/';
  }

  lemma SeparateAfter(p: string, x: string, y: string)
    requires Separate(x, y)
    ensures Separate(p + x, p + y)
  {
    assert (p + x)[|p|..] == x && (p + y)[|p|..] == y;
    assert (p + x + "/")[|p|..] == x + "/" && (p + y + "/")[|p|..] == y + "/";
    assert p + x + "/" <= p + y ==> x + "/" <= y;
    assert p + y + "/" <= p + x ==> y + "/" <= x;
  }

  predicate IsNameChar(c: char) {
    'a' <= c <= 'z' || c == '@' || c == '/' || c == '-'
  }

  predicate IsName(s: string) {
    forall k :: 0 <= k < |s| ==> IsNameChar(s[k])
  }

  lemma NamesAreClean(s: string)
    requires s != [] && IsName(s)
    ensures Clean(s)
  {
    forall c | c in s
      ensures !IsQuote(c) && !IsSpace(c) && c != '#'
    {
      assert IsNameChar(c);
    }
  }

  lemma ShortNames()
    ensures IsName(UPSTREAM_PLUGIN) && IsName(SCOPE) && IsName(SCOPED_PLUGIN)
    ensures forall i :: 0 <= i < |CORE| ==> IsName(CORE[i]) && 3 <= |CORE[i]|
    ensures forall i :: 0 <= i < |PLUGINS| ==> IsName(PLUGINS[i]) && 3 <= |PLUGINS[i]|
  {
  }

  lemma CoreSeparate(i: nat, j: nat)
    requires i < j < |CORE|
    ensures Separate(CORE[i], CORE[j])
  {
    SeparateAt(CORE[i], CORE[j], if j == 1 then 2 else 0);
  }

  lemma PluginsSeparate(i: nat, j: nat)
    requires i < j < |PLUGINS|
    ensures Separate(PLUGINS[i], PLUGINS[j])
  {
    SeparateAt(PLUGINS[i], PLUGINS[j], if i == 0 && j == 5 then 2 else 0);
  }

  lemma CoreBeforePlugin(i: nat, plugin: string)
    requires i < |CORE| && plugin != []
    ensures Separate(CORE[i], UPSTREAM_PLUGIN + plugin) && Separate(SCOPE + CORE[i], SCOPE + (SCOPED_PLUGIN + plugin))
  {
    var scoped := SCOPED_PLUGIN + plugin;
    assert (UPSTREAM_PLUGIN + plugin)[0] == '@';
    SeparateAt(CORE[i], UPSTREAM_PLUGIN + plugin, 0);
    assert scoped[0] == 'c' && scoped[2] == 'r' && scoped[6] == '-';
    if i == 0 {
      SeparateLonger(CORE[i], scoped);
    } else {
      SeparateAt(CORE[i], scoped, if i == 1 then 2 else 0);
    }
    SeparateAfter(SCOPE, CORE[i], scoped);
  }

  lemma CoreShapes()
    ensures Core("cordis") == Rename("cordis", "@deepseek-ai/cordis")
    ensures Core("cosmokit") == Rename("cosmokit", "@deepseek-ai/cosmokit")
    ensures Core("schemastery") == Rename("schemastery", "@deepseek-ai/schemastery")
  {
  }

  lemma LoaderShape()
    ensures Plugin("loader") == Rename("@cordisjs/plugin-loader", "@deepseek-ai/cordis-plugin-loader")
  {
  }

  lemma IncludeShape()
    ensures Plugin("include") == Rename("@cordisjs/plugin-include", "@deepseek-ai/cordis-plugin-include")
  {
  }

  lemma GroupShape()
    ensures Plugin("group") == Rename("@cordisjs/plugin-group", "@deepseek-ai/cordis-plugin-group")
  {
  }

  lemma TimerShape()
    ensures Plugin("timer") == Rename("@cordisjs/plugin-timer", "@deepseek-ai/cordis-plugin-timer")
  {
  }

  lemma HmrShape()
    ensures Plugin("hmr") == Rename("@cordisjs/plugin-hmr", "@deepseek-ai/cordis-plugin-hmr")
  {
  }

  lemma LoggerConsoleUpstream()
    ensures UPSTREAM_PLUGIN + "logger-console" == "@cordisjs/plugin-logger-console"
  {
  }

  lemma LoggerConsoleScoped()
    ensures SCOPE + (SCOPED_PLUGIN + "logger-console") == "@deepseek-ai/cordis-plugin-logger-console"
  {
  }

  lemma LoggerConsoleShape()
    ensures Plugin("logger-console")
         == Rename("@cordisjs/plugin-logger-console", "@deepseek-ai/cordis-plugin-logger-console")
  {
    LoggerConsoleUpstream();
    LoggerConsoleScoped();
  }

  lemma RenameShape(i: nat)
    requires i < |RENAMES|
    ensures RENAMES[i] == if i < 3 then Core(CORE[i]) else Plugin(PLUGINS[i - 3])
  {
    CoreShapes();
    LoaderShape();
    IncludeShape();
    GroupShape();
    TimerShape();
    HmrShape();
    LoggerConsoleShape();
  }

  lemma NameShape(prefix: string, name: string)
    requires IsName(prefix) && IsName(name) && name != []
    ensures IsName(prefix + name) && Clean(prefix + name)
  {
    NamesAreClean(prefix + name);
  }

  lemma RenameParts(i: nat)
    requires i < |RENAMES|
    ensures RENAMES[i] == if i < 3 then Core(CORE[i]) else Plugin(PLUGINS[i - 3])
    ensures Clean(RENAMES[i].from) && Clean(RENAMES[i].to)
    ensures 2 <= |RENAMES[i].to| && RENAMES[i].to[0] == '@' && RENAMES[i].to[1] == 'd'
    ensures 2 <= |RENAMES[i].from| && (RENAMES[i].from[0] != '@' || RENAMES[i].from[1] == 'c')
  {
    ShortNames();
    RenameShape(i);
    if i < 3 {
      NamesAreClean(CORE[i]);
      NameShape(SCOPE, CORE[i]);
      assert CORE[i][0] != '@';
    } else {
      NameShape(UPSTREAM_PLUGIN, PLUGINS[i - 3]);
      NameShape(SCOPED_PLUGIN, PLUGINS[i - 3]);
      NameShape(SCOPE, SCOPED_PLUGIN + PLUGINS[i - 3]);
    }
  }

  lemma PairSeparate(i: nat, j: nat)
    requires i < j < |RENAMES|
    ensures Separate(RENAMES[i].from, RENAMES[j].from) && Separate(RENAMES[i].to, RENAMES[j].to)
  {
    RenameParts(i);
    RenameParts(j);
    if j < 3 {
      CoreSeparate(i, j);
      SeparateAfter(SCOPE, CORE[i], CORE[j]);
    } else if i < 3 {
      CoreBeforePlugin(i, PLUGINS[j - 3]);
    } else {
      PluginsSeparate(i - 3, j - 3);
      SeparateAfter(UPSTREAM_PLUGIN, PLUGINS[i - 3], PLUGINS[j - 3]);
      SeparateAfter(SCOPED_PLUGIN, PLUGINS[i - 3], PLUGINS[j - 3]);
      SeparateAfter(SCOPE, SCOPED_PLUGIN + PLUGINS[i - 3], SCOPED_PLUGIN + PLUGINS[j - 3]);
    }
  }

  /** The laws above apply to the mapping the codemod ships. */
  lemma RenamesWellFormed()
    ensures WellFormed(RENAMES)
  {
    forall i | 0 <= i < |RENAMES|
      ensures Clean(RENAMES[i].from) && Clean(RENAMES[i].to)
    {
      RenameParts(i);
    }
    forall i, j | 0 <= i < j < |RENAMES|
      ensures Separate(RENAMES[i].from, RENAMES[j].from) && Separate(RENAMES[i].to, RENAMES[j].to)
    {
      PairSeparate(i, j);
    }
    forall i, j | 0 <= i < |RENAMES| && 0 <= j < |RENAMES|
      ensures Separate(RENAMES[i].from, RENAMES[j].to)
    {
      RenameParts(i);
      RenameParts(j);
      SeparateAt(RENAMES[i].from, RENAMES[j].to, if RENAMES[i].from[0] != '@' then 0 else 1);
    }
  }
}
