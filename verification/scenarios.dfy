/** Worked examples of ingestion: a new topic, a repeat of it, a request
    without category and a request without summary. The topic hash is any
    function, as in `Store`. */
module Scenarios {
  import opened Optional
  import opened Chars
  import opened Canonicalizer
  import opened Scorer
  import opened Store

  lemma LowerBigWin()
    ensures LowerAll("Big Win!") == "big win!"
  {
    var s := "Big Win!";
    var a := LowerAll(s);
    assert Lower('B') == 'b' && Lower('W') == 'w';
    assert a[0] == 'b' && a[4] == 'w';
    forall i | 0 <= i < |s| && i != 0 && i != 4 ensures a[i] == s[i] {
      assert !IsAsciiUpper(s[i]);
    }
  }

  /** Character facts about the example title, kept apart from the
      canonicaliser so that proving them stays cheap. */
  lemma TitleCharacters()
    ensures '<' !in "big win!" && ':' !in "big win!"
    ensures forall c :: c in "big win!" ==> !IsDigit(c)
    ensures forall c :: c in "big win" ==> IsWordOrSpace(c)
    ensures !IsWordOrSpace('!')
  {
  }

  lemma DropBang()
    ensures StripPunctuation("big win!") == "big win"
  {
    var t := "big win";
    assert t + "!" == "big win!";
    FilterAppend(t, "!", IsWordOrSpace);
    TitleCharacters();
    assert "!"[1..] == [];
    assert Filter("!", IsWordOrSpace) == [] + Filter([], IsWordOrSpace);
  }

  /** "Big Win!" and "big win" share the canonical form
      "big win". */
  lemma BigWinTitles()
    ensures Clean("Big Win!") == "big win"
    ensures Clean("big win") == "big win"
  {
    var t := "big win";
    assert Canonical(t);
    CanonicalIsFixed(t);
    var a := "big win!";
    LowerBigWin();
    TitleCharacters();
    NoAngleNoTag(a);
    NoColonNoUrl(a);
    StripTagsIdentity(a);
    StripUrlsIdentity(a);
    assert StripDigits(a) == a;
    DropBang();
    CleanThrough("Big Win!", t);
  }

  const FirstReport := Request(Some("Big Win!"), Some("s"), Some("Cricket"))
  const SecondReport := Request(Some("big win"), Some("s2"), Some("Cricket"))

  /** A first report of a topic is saved with one repetition and score
      6 + 10 + 3 = 19. */
  lemma FirstReportSaved(table: Table, hash: string -> Key, t0: int)
    requires hash("big win") !in table
    ensures var r := Upsert(table, hash, FirstReport, t0);
            var key := hash("big win");
            && r.outcome == Saved
            && AddsOnly(table, r.table, key)
            && r.table[key].repetitionCount == 1
            && r.table[key].category == "Cricket"
            && r.table[key].score == 19
  {
    var key := hash("big win");
    BigWinTitles();
    assert Accepted(FirstReport);
    assert KeyOf(hash, FirstReport) == key;
    var r := Upsert(table, hash, FirstReport, t0);
    assert r.outcome == Saved;
    assert r.table == Insert(table, key, FirstReport, t0);
    InitialScoreValues(FirstReport, key, t0);
  }

  /** A second report of the same topic within the hour merges into the row:
      two repetitions and score 12 + 10 + 3 = 25, with the first report's
      summary kept. */
  lemma SecondReportMerged(table: Table, hash: string -> Key, t0: int, t1: int)
    requires hash("big win") !in table
    requires t0 <= t1 < t0 + 3600000
    ensures var first := Upsert(table, hash, FirstReport, t0).table;
            var r := Upsert(first, hash, SecondReport, t1);
            var key := hash("big win");
            && r.outcome == Updated
            && AddsOnly(table, r.table, key)
            && r.table[key].repetitionCount == 2
            && r.table[key].summary == "s"
            && r.table[key].score == 25
  {
    var key := hash("big win");
    FirstReportSaved(table, hash, t0);
    BigWinTitles();
    var first := Upsert(table, hash, FirstReport, t0).table;
    assert first[key] == FirstSighting(FirstReport, key, t0);
    assert Accepted(SecondReport);
    assert KeyOf(hash, SecondReport) == key;
    var r := Upsert(first, hash, SecondReport, t1);
    assert r.outcome == Updated;
    assert r.table == Merge(first, key, t1);
    ScoreFormula(2, Some("Cricket"), t0, t1);
  }

  /** A report without category is stored under "State" and earns no
      category bonus. */
  lemma MissingCategoryIsState(table: Table, hash: string -> Key, title: string, summary: string, now: int)
    requires title != "" && summary != ""
    requires hash(Clean(title)) !in table
    ensures var r := Upsert(table, hash, Request(Some(title), Some(summary), None), now);
            && r.outcome == Saved
            && r.table[hash(Clean(title))].category == "State"
            && r.table[hash(Clean(title))].score == 16
  {
    InitialScoreValues(Request(Some(title), Some(summary), None), hash(Clean(title)), now);
  }

  /** A report without summary is skipped and the table is left as it was. */
  lemma MissingSummarySkipped(table: Table, hash: string -> Key, title: Option<string>, category: Option<string>, now: int)
    ensures var r := Upsert(table, hash, Request(title, None, category), now);
            r.outcome == Skipped && r.table == table
  {
  }

  /** As deployed, the second report scores 12 + 3 = 15: lower than the
      first report's 19, so repetition pushes a fresh topic down the
      trending list. */
  lemma SecondReportAsDeployed(table: Table, hash: string -> Key, t0: int, t1: int)
    requires hash("big win") !in table
    requires t0 <= t1 < t0 + 3600000
    ensures var first := Upsert(table, hash, FirstReport, t0).table;
            var key := hash("big win");
            && key in first
            && first[key].score == 19
            && MergeAsDeployed(first, key, t1)[key].score == 15
  {
    FirstReportSaved(table, hash, t0);
  }

  // ---------------------------------------------------------------------------
  // Digits are not always irrelevant

  lemma UrlCharacters()
    ensures '<' !in "http://1" && '<' !in "http://"
    ensures forall c :: c in "http://1" ==> !IsAsciiUpper(c)
    ensures forall c :: c in "http://" ==> !IsAsciiUpper(c) && !IsDigit(c)
    ensures forall c :: c in "http" ==> IsWordOrSpace(c)
    ensures forall c :: c in "://" ==> !IsWordOrSpace(c)
    ensures !IsSpace('1')
  {
  }

  lemma HttpFacts()
    ensures Canonical("http")
    ensures "http" + "://" == "http://"
  {
  }

  /** "http://1" is one URL from its first to its last character. */
  lemma OneUrl()
    ensures StripUrls("http://1") == []
  {
    var u := "http://1";
    assert SchemeLength(u) == 7;
    assert !IsSpace(u[7]);
    assert UrlEnd(u) == Some(8);
    assert u[8..] == [];
  }

  /** No URL starts in "watch ", although its `h` begins a word. */
  lemma WatchOpensNoUrl(x: string, y: string)
    requires x == "watch " && y == "http://x"
    ensures forall i :: 0 <= i < |x| ==> UrlEnd((x + y)[i..]).None?
  {
    var s := x + y;
    forall i | 0 <= i < |x| ensures UrlEnd(s[i..]).None? {
      if i == 4 {
        assert s[i..][1] == ' ';
      } else {
        assert s[i..][0] == s[i] != 'h';
      }
    }
  }

  /** "http://x" is one whole URL. */
  lemma HttpXDropped(y: string)
    requires y == "http://x"
    ensures StripUrls(y) == []
  {
    assert y == "http://" + "x" + [];
    StripUrlsDropsUrl("http://", "x", []);
  }

  /** An `h` that opens no URL stays, even with a URL later in the title. */
  lemma LoneHKept(x: string, y: string)
    requires x == "watch " && y == "http://x"
    ensures StripUrls(x + y) == "watch "
  {
    WatchOpensNoUrl(x, y);
    StripUrlsKeepsPlain(x, y);
    HttpXDropped(y);
    assert x + [] == x;
  }

  /** No tag starts in "<>": `[^>]+` needs a character before the `>`. */
  lemma AnglesOpenNoTag(x: string, y: string)
    requires x == "<>" && y == "<b>"
    ensures forall i :: 0 <= i < |x| ==> TagEnd((x + y)[i..]).None?
  {
    var s := x + y;
    forall i | 0 <= i < |x| ensures TagEnd(s[i..]).None? {
      if i == 0 {
        assert s[i..][1] == '>';
      } else {
        assert s[i..][0] == '>';
      }
    }
  }

  /** "<b>" is one whole tag. */
  lemma BoldDropped(y: string)
    requires y == "<b>"
    ensures StripTags(y) == []
  {
    assert y == ['<'] + "b" + ['>'] + [];
    StripTagsDropsTag("b", []);
  }

  /** A `<` directly followed by `>` opens no tag and stays, even with a tag
      later in the title. */
  lemma EmptyAnglesKept(x: string, y: string)
    requires x == "<>" && y == "<b>"
    ensures StripTags(x + y) == "<>"
  {
    AnglesOpenNoTag(x, y);
    StripTagsKeepsPlain(x, y);
    BoldDropped(y);
    assert x + [] == x;
  }

  /** "http://1" cleans away entirely. */
  lemma UrlWithDigit()
    ensures Clean("http://1") == ""
  {
    UrlCharacters();
    var u := "http://1";
    NoAngleNoTag(u);
    assert LowerAll(u) == u;
    StripTagsIdentity(u);
    OneUrl();
    CleanThrough(u, []);
  }

  lemma DropSchemePunctuation()
    ensures StripPunctuation("http://") == "http"
    ensures Canonical("http")
  {
    UrlCharacters();
    HttpFacts();
    FilterAppend("http", "://", IsWordOrSpace);
    FilterNone("://", IsWordOrSpace);
  }

  /** "http://" has nothing after the scheme, so it is no URL; only its
      punctuation goes. */
  lemma UrlWithoutDigit()
    ensures Clean("http://") == "http"
  {
    UrlCharacters();
    var v := "http://";
    NoAngleNoTag(v);
    assert LowerAll(v) == v;
    StripTagsIdentity(v);
    ShortHasNoUrl(v);
    StripUrlsIdentity(v);
    assert StripDigits(v) == v;
    DropSchemePunctuation();
    CleanThrough(v, "http");
  }

  /** The URL rule runs before the digit rule, so a digit can decide whether
      `https?://\S+` matches: two titles that differ only in one digit clean
      to different keys. */
  lemma DigitDecidesUrl()
    ensures Clean("http://1") != Clean("http://")
  {
    UrlWithDigit();
    UrlWithoutDigit();
  }
}
