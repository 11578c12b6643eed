/**
  The UI translation updater: it collects the alert texts that need
  translating into a generated C++ include (offroad alerts in file order, then
  the distinct onroad alert texts in sorted order), then builds one `lupdate`
  command line per language file.
*/
module UpdateTranslations {
  import opened Common
  import Text

  /** An onroad alert after evaluation: its two text lines. */
  datatype Alert = Alert(text1: string, text2: string)

  /** The part of an alert text before its first '|' (`text.split('|')[0]`). */
  function Cut(text: string): (r: string)
    ensures '|' !in r
    ensures Text.StartsWith(text, r)
    ensures '|' !in text ==> r == text
    ensures '|' in text ==> r + ['|'] == text[..|r| + 1]
  {
    Text.SplitHead(text, '|');
    Text.SplitJoin(text, '|');
    Text.Split(text, '|')[0]
  }

  /** `t` is a text that needs an onroad translation: a non-empty cut of some alert line. */
  predicate Translated(alerts: seq<Alert>, t: string) {
    t != "" && exists a :: a in alerts && (Cut(a.text1) == t || Cut(a.text2) == t)
  }

  /** The distinct non-empty cut texts of all alerts, collected line by line. */
  method CollectOnroadTexts(alerts: seq<Alert>) returns (translated: set<string>)
    ensures forall t :: t in translated <==> Translated(alerts, t)
  {
    translated := {};
    var k := 0;
    while k < |alerts|
      invariant 0 <= k <= |alerts|
      invariant forall t :: t in translated <==> Translated(alerts[..k], t)
    {
      assert alerts[..k + 1] == alerts[..k] + [alerts[k]];
      var texts := [alerts[k].text1, alerts[k].text2];
      var j := 0;
      while j < 2
        invariant 0 <= j <= 2
        invariant forall t :: t in translated <==>
          Translated(alerts[..k], t) || (t != "" && exists i :: 0 <= i < j && Cut(texts[i]) == t)
      {
        var text := Cut(texts[j]);
        if text != "" && text !in translated {
          translated := translated + {text};
        }
        j := j + 1;
      }
      forall t ensures t in translated <==> Translated(alerts[..k + 1], t) {
        if Translated(alerts[..k + 1], t) && !Translated(alerts[..k], t) {
          var a :| a in alerts[..k + 1] && (Cut(a.text1) == t || Cut(a.text2) == t);
          assert a == alerts[k];
          assert Cut(texts[0]) == t || Cut(texts[1]) == t;
        }
        if t in translated && !Translated(alerts[..k], t) {
          assert alerts[k] in alerts[..k + 1];
        }
      }
      k := k + 1;
    }
    assert alerts[..k] == alerts;
  }

  /** One generated line: the text marked for translation in `context`. */
  function NoopLine(context: string, text: string): string {
    "QT_TRANSLATE_NOOP(\"" + context + "\", R\"(" + text + ")\");\n"
  }

  /** The generated lines of `texts`, one per text, in order. */
  function NoopLines(context: string, texts: seq<string>): string {
    if texts == [] then "" else NoopLines(context, texts[..|texts| - 1]) + NoopLine(context, texts[|texts| - 1])
  }

  /** The lines of two lists are the lines of the first followed by those of the second. */
  lemma {:induction false} NoopLinesAppend(context: string, a: seq<string>, b: seq<string>)
    ensures NoopLines(context, a + b) == NoopLines(context, a) + NoopLines(context, b)
    decreases |b|
  {
    if b == [] {
      assert a + b == a;
    } else {
      var n := |b| - 1;
      var line := NoopLine(context, b[n]);
      assert (a + b)[..|a + b| - 1] == a + b[..n] && (a + b)[|a + b| - 1] == b[n];
      assert NoopLines(context, a + b) == NoopLines(context, a + b[..n]) + line;
      NoopLinesAppend(context, a, b[..n]);
      Text.ConcatAssoc(NoopLines(context, a), NoopLines(context, b[..n]), line);
    }
  }

  /** Every text of the list has its own line in the generated block, in list order. */
  lemma NoopLinesHasLine(context: string, texts: seq<string>, k: nat)
    requires k < |texts|
    ensures Text.HasSubstring(NoopLines(context, texts), NoopLine(context, texts[k]))
  {
    var pre := NoopLines(context, texts[..k]);
    var line := NoopLine(context, texts[k]);
    var post := NoopLines(context, texts[k + 1..]);
    NoopLinesSplit(context, texts, k);
    Text.MiddleOccurs(pre, line, post);
  }

  /** The block splits around the line of any one text. */
  lemma NoopLinesSplit(context: string, texts: seq<string>, k: nat)
    requires k < |texts|
    ensures NoopLines(context, texts) ==
      NoopLines(context, texts[..k]) + NoopLine(context, texts[k]) + NoopLines(context, texts[k + 1..])
  {
    var head := texts[..k + 1];
    NoopLinesAppend(context, head, texts[k + 1..]);
    assert head + texts[k + 1..] == texts;
    assert head[..k] == texts[..k] && head[k] == texts[k];
    assert NoopLines(context, head) == NoopLines(context, texts[..k]) + NoopLine(context, texts[k]);
  }

  /** A commented block of generated lines, appended one text at a time. */
  method NoopBlock(comment: string, context: string, texts: seq<string>) returns (content: string)
    ensures content == comment + NoopLines(context, texts)
  {
    content := comment;
    var k := 0;
    while k < |texts|
      invariant 0 <= k <= |texts|
      invariant content == comment + NoopLines(context, texts[..k])
    {
      assert texts[..k + 1][..k] == texts[..k];
      content := content + NoopLine(context, texts[k]);
      k := k + 1;
    }
    assert texts[..k] == texts;
  }

  const OnroadComment := "\n// onroad alerts\n"
  const OffroadComment := "\n// offroad alerts\n"
  const IncludeHeader := "// THIS IS AN AUTOGENERATED FILE\n"

  /**
    `generate_onroad_alert_translations`: the block of onroad texts, each
    distinct text once, in ascending order. The sorted list is returned with it.
  */
  method GenerateOnroad(alerts: seq<Alert>) returns (content: string, texts: seq<string>)
    ensures Text.StrictlySorted(texts)
    ensures forall t :: t in texts <==> Translated(alerts, t)
    ensures content == OnroadComment + NoopLines("OnroadAlerts", texts)
  {
    var translated := CollectOnroadTexts(alerts);
    texts := Text.SortedElements(translated);
    content := NoopBlock(OnroadComment, "OnroadAlerts", texts);
  }

  /** `generate_offroad_alerts_translations`: the offroad texts in the order of the alerts file, duplicates kept. */
  method GenerateOffroad(offroadTexts: seq<string>) returns (content: string)
    ensures content == OffroadComment + NoopLines("OffroadAlert", offroadTexts)
  {
    content := NoopBlock(OffroadComment, "OffroadAlert", offroadTexts);
  }

  /** `generate_translations_include`: the header, then the offroad block, then the onroad block. */
  method GenerateInclude(offroadTexts: seq<string>, alerts: seq<Alert>) returns (content: string, onroad: seq<string>)
    ensures Text.StrictlySorted(onroad) && forall t :: t in onroad <==> Translated(alerts, t)
    ensures content == IncludeHeader + OffroadComment + NoopLines("OffroadAlert", offroadTexts)
      + OnroadComment + NoopLines("OnroadAlerts", onroad)
  {
    var offroad := GenerateOffroad(offroadTexts);
    var onroadBlock;
    onroadBlock, onroad := GenerateOnroad(alerts);
    content := IncludeHeader + offroad + onroadBlock;
  }

  predicate EndsWith(s: string, suffix: string) {
    |suffix| <= |s| && s[|s| - |suffix|..] == suffix
  }

  /** The fixed part of one `lupdate` command, before the optional flags. */
  function LupdateBase(uiDir: string, trFile: string, baseDir: string): string {
    "lupdate -locations none -recursive " + uiDir + " -ts " + trFile + " -I " + baseDir
  }

  const NoObsolete := " -no-obsolete"
  const PluralOnly := " -pluralonly"

  /**
    The `lupdate` command for one language file: the fixed part, then
    `-no-obsolete` exactly when obsolete strings are to vanish, then
    `-pluralonly` exactly when the file is listed as plural-only.
  */
  function LupdateCommand(file: string, vanish: bool, pluralOnly: seq<string>,
                          uiDir: string, translationsDir: string, baseDir: string): (r: string)
    ensures var base := LupdateBase(uiDir, translationsDir + "/" + file + ".ts", baseDir);
      Text.StartsWith(r, base) &&
      (vanish <==> Text.StartsWith(r[|base|..], NoObsolete)) &&
      (file in pluralOnly <==> EndsWith(r[|base|..], PluralOnly)) &&
      |r| - |base| == (if vanish then |NoObsolete| else 0) + (if file in pluralOnly then |PluralOnly| else 0)
  {
    var base := LupdateBase(uiDir, translationsDir + "/" + file + ".ts", baseDir);
    var args := base + (if vanish then NoObsolete else "");
    var r := args + (if file in pluralOnly then PluralOnly else "");
    assert NoObsolete[|NoObsolete| - |PluralOnly|..][0] != PluralOnly[0];
    assert !EndsWith(NoObsolete, PluralOnly);
    assert r[|base|..] == (if vanish then NoObsolete else "") + (if file in pluralOnly then PluralOnly else "");
    r
  }

  /**
    `update_translations`: one `lupdate` run per language file, in the order of
    the languages file, stopping at the first run whose exit status is not 0
    (the assertion fails there). `statuses` holds the exit status each run
    would return; a missing plural-only list counts as empty.
  */
  method Update(files: seq<string>, vanish: bool, pluralOnly: Option<seq<string>>,
                uiDir: string, translationsDir: string, baseDir: string, statuses: seq<int>)
    returns (ran: seq<string>, ok: bool)
    requires |statuses| == |files|
    ensures |ran| <= |files|
    ensures forall k :: 0 <= k < |ran| ==>
      ran[k] == LupdateCommand(files[k], vanish, pluralOnly.GetOr([]), uiDir, translationsDir, baseDir)
    ensures ok <==> forall k :: 0 <= k < |files| ==> statuses[k] == 0
    ensures ok ==> |ran| == |files|
    ensures !ok ==> |ran| >= 1 && statuses[|ran| - 1] != 0 && forall k :: 0 <= k < |ran| - 1 ==> statuses[k] == 0
  {
    var plural := pluralOnly.GetOr([]);
    ran := [];
    var k := 0;
    while k < |files|
      invariant 0 <= k <= |files| && |ran| == k
      invariant forall i :: 0 <= i < k ==>
        ran[i] == LupdateCommand(files[i], vanish, plural, uiDir, translationsDir, baseDir)
      invariant forall i :: 0 <= i < k ==> statuses[i] == 0
    {
      ran := ran + [LupdateCommand(files[k], vanish, plural, uiDir, translationsDir, baseDir)];
      if statuses[k] != 0 {
        return ran, false;
      }
      k := k + 1;
    }
    return ran, true;
  }
}
