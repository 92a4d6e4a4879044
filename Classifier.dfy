/** The keyword classifier: a table from categories to lower-case keywords,
    a score per category (how many of its keywords occur in the lower-cased
    subject and body), and the first category with the highest score, or
    Other when nothing matches. */
module Classifier {
  import opened Wrappers
  import opened Text

  datatype Category = Work | Personal | Shopping | Finance | Social | Spam | Other

  /** One entry of the category table: a category and its keywords. */
  datatype Entry = Entry(category: Category, keywords: seq<string>)

  /** The table is a dictionary keyed by category, so no category appears
      twice, and the fallback answer Other is not one of its keys. */
  predicate WellFormed(table: seq<Entry>) {
    && (forall i :: 0 <= i < |table| ==> table[i].category != Other)
    && (forall i, j :: 0 <= i < j < |table| ==> table[i].category != table[j].category)
  }

  /** The table every classifier starts with, in insertion order. */
  const DefaultTable: seq<Entry> := [
    Entry(Work,
      ["meeting", "project", "deadline", "report", "task", "office", "colleague",
       "conference", "team", "manager", "client", "proposal", "contract"]),
    Entry(Personal,
      ["family", "friend", "birthday", "vacation", "personal", "home", "weekend",
       "dinner", "party", "wedding"]),
    Entry(Shopping,
      ["order", "purchase", "cart", "sale", "discount", "shipping", "delivery",
       "amazon", "ebay", "store", "receipt", "confirmation"]),
    Entry(Finance,
      ["bank", "payment", "invoice", "bill", "account", "transaction", "credit",
       "statement", "balance", "loan", "mortgage"]),
    Entry(Social,
      ["facebook", "twitter", "instagram", "linkedin", "notification", "like",
       "comment", "share", "follow", "post"]),
    Entry(Spam,
      ["win", "lottery", "free", "urgent", "click here", "limited time", "offer",
       "congratulations", "prize", "winner"])
  ]

  /** The default table has the six categories in order, each once. */
  lemma DefaultTableWellFormed()
    ensures WellFormed(DefaultTable)
    ensures |DefaultTable| == 6
    ensures forall i :: 0 <= i < |DefaultTable| ==>
      DefaultTable[i].category == [Work, Personal, Shopping, Finance, Social, Spam][i]
  {
  }

  lemma WorkKeywordsDistinct()
    ensures Distinct(DefaultTable[0].keywords)
  {
  }

  lemma PersonalKeywordsDistinct()
    ensures Distinct(DefaultTable[1].keywords)
  {
  }

  lemma ShoppingKeywordsDistinct()
    ensures Distinct(DefaultTable[2].keywords)
  {
  }

  lemma FinanceKeywordsDistinct()
    ensures Distinct(DefaultTable[3].keywords)
  {
  }

  lemma SocialKeywordsDistinct()
    ensures Distinct(DefaultTable[4].keywords)
  {
  }

  lemma SpamKeywordsDistinct()
    ensures Distinct(DefaultTable[5].keywords)
  {
  }

  /** No category of the default table lists a keyword twice. */
  lemma DefaultKeywordsDistinct()
    ensures forall i :: 0 <= i < |DefaultTable| ==> Distinct(DefaultTable[i].keywords)
  {
    WorkKeywordsDistinct();
    PersonalKeywordsDistinct();
    ShoppingKeywordsDistinct();
    FinanceKeywordsDistinct();
    SocialKeywordsDistinct();
    SpamKeywordsDistinct();
    assert |DefaultTable| == 6;
  }

  /** `x or ''` for an optional string. */
  function OrEmpty(x: Option<string>): string {
    match x
    case Some(s) => s
    case None => ""
  }

  /** The text the keywords are searched in: the lower-cased subject, a
      space, and the lower-cased body; a missing part counts as empty. */
  function SearchText(subject: Option<string>, body: Option<string>): string {
    Lower(OrEmpty(subject) + " " + OrEmpty(body))
  }

  /** Number of entries of ks that occur in text (each entry at most once). */
  function Score(ks: seq<string>, text: string): (n: nat)
    ensures n <= |ks|
  {
    if ks == [] then 0
    else (if Occurs(ks[0], text) then 1 else 0) + Score(ks[1..], text)
  }

  /** The keywords of ks that occur in text. */
  ghost function Matched(ks: seq<string>, text: string): set<string> {
    set k | k in ks && Occurs(k, text)
  }

  predicate Distinct(ks: seq<string>) {
    forall i, j :: 0 <= i < j < |ks| ==> ks[i] != ks[j]
  }

  /** A score counts each matching keyword once, however often it occurs in
      the text. */
  lemma {:induction false} ScoreIsMatchedCount(ks: seq<string>, text: string)
    requires Distinct(ks)
    ensures Score(ks, text) == |Matched(ks, text)|
  {
    if ks != [] {
      var rest := ks[1..];
      assert Distinct(rest);
      ScoreIsMatchedCount(rest, text);
      assert ks[0] !in rest;
      if Occurs(ks[0], text) {
        assert Matched(ks, text) == {ks[0]} + Matched(rest, text);
      } else {
        assert Matched(ks, text) == Matched(rest, text);
      }
    } else {
      assert Matched(ks, text) == {};
    }
  }

  /** A score is zero exactly when none of the keywords occurs. */
  lemma {:induction false} ScoreZeroIff(ks: seq<string>, text: string)
    ensures Score(ks, text) == 0 <==> forall i :: 0 <= i < |ks| ==> !Occurs(ks[i], text)
  {
    if ks != [] {
      ScoreZeroIff(ks[1..], text);
      assert forall i :: 1 <= i < |ks| ==> ks[i] == ks[1..][i - 1];
    }
  }

  /** The score of every entry, in table order. */
  function Scores(table: seq<Entry>, text: string): (s: seq<nat>)
    ensures |s| == |table|
    ensures forall i :: 0 <= i < |table| ==> s[i] == Score(table[i].keywords, text)
  {
    seq(|table|, i requires 0 <= i < |table| => Score(table[i].keywords, text))
  }

  /** k is the first position of a maximum of s. */
  predicate IsFirstMax(s: seq<int>, k: int) {
    && 0 <= k < |s|
    && (forall j :: 0 <= j < |s| ==> s[j] <= s[k])
    && (forall j :: 0 <= j < k ==> s[j] < s[k])
  }

  /** Python's `max` over positions keyed by value: a later value replaces
      the current best only when it is strictly larger. */
  function FirstMaxIndex(s: seq<int>): (k: nat)
    requires s != []
    ensures IsFirstMax(s, k)
  {
    if |s| == 1 then 0
    else
      var k := FirstMaxIndex(s[..|s| - 1]);
      if s[|s| - 1] > s[k] then |s| - 1 else k
  }

  /** The category the classifier gives a search text: Other for an empty
      table or when every score is 0, otherwise the first category with the
      highest score. */
  function ClassifyText(table: seq<Entry>, text: string): Category
    requires table != []
  {
    var scores := Scores(table, text);
    var k := FirstMaxIndex(scores);
    if scores[k] == 0 then Other else table[k].category
  }

  /** The highest value reached so far while walking s. */
  lemma MaxStep(s: seq<nat>, i: nat, top: nat)
    requires i < |s|
    requires forall j :: 0 <= j < i ==> s[j] <= top
    requires top == 0 || exists j :: 0 <= j < i && s[j] == top
    ensures var top' := if s[i] > top then s[i] else top;
      && (forall j :: 0 <= j <= i ==> s[j] <= top')
      && (top' == 0 || exists j :: 0 <= j <= i && s[j] == top')
  {
  }

  /** Extending a prefix by one element moves the first maximum only when
      the new element is strictly larger. */
  lemma FirstMaxStep(s: seq<int>, i: nat)
    requires 0 < i < |s|
    ensures FirstMaxIndex(s[..i + 1]) ==
      (if s[i] > s[FirstMaxIndex(s[..i])] then i else FirstMaxIndex(s[..i]))
  {
    assert s[..i + 1][..i] == s[..i];
  }

  /** `EmailClassifier.classify_email`: fill the score table in table order,
      take the highest score, and answer Other when it is 0, otherwise the
      first category that reaches it. */
  method Classify(table: seq<Entry>, subject: Option<string>, body: Option<string>)
    returns (c: Category)
    requires table != []
    ensures c == ClassifyText(table, SearchText(subject, body))
  {
    var text := SearchText(subject, body);
    var scores: seq<nat> := [];
    for i := 0 to |table|
      invariant scores == Scores(table, text)[..i]
    {
      scores := scores + [Score(table[i].keywords, text)];
    }
    assert scores == Scores(table, text);
    var top := 0;
    for i := 0 to |scores|
      invariant forall j :: 0 <= j < i ==> scores[j] <= top
      invariant top == 0 || exists j :: 0 <= j < i && scores[j] == top
    {
      MaxStep(scores, i, top);
      if scores[i] > top {
        top := scores[i];
      }
    }
    if top == 0 {
      return Other;
    }
    var best := 0;
    for i := 1 to |scores|
      invariant best == FirstMaxIndex(scores[..i])
    {
      FirstMaxStep(scores, i);
      if scores[i] > scores[best] {
        best := i;
      }
    }
    assert scores[..|scores|] == scores;
    c := table[best].category;
  }

  // ---------------------------------------------------------------------
  // Properties of the classification.

  /** The classification is Other exactly when every category scores 0. */
  lemma ClassifyOtherIff(table: seq<Entry>, text: string)
    requires table != [] && WellFormed(table)
    ensures ClassifyText(table, text) == Other <==>
      forall i :: 0 <= i < |table| ==> Score(table[i].keywords, text) == 0
  {
    var scores := Scores(table, text);
    var k := FirstMaxIndex(scores);
    assert ClassifyText(table, text) == Other <==> scores[k] == 0;
  }

  /** The classification is Other exactly when no keyword of any category
      occurs in the search text. */
  lemma ClassifyOtherIffNoKeyword(table: seq<Entry>, text: string)
    requires table != [] && WellFormed(table)
    ensures ClassifyText(table, text) == Other <==>
      forall i, kw :: 0 <= i < |table| && kw in table[i].keywords ==> !Occurs(kw, text)
  {
    ClassifyOtherIff(table, text);
    if ClassifyText(table, text) == Other {
      forall i, kw | 0 <= i < |table| && kw in table[i].keywords
        ensures !Occurs(kw, text)
      {
        ScoreZeroIff(table[i].keywords, text);
        var j :| 0 <= j < |table[i].keywords| && table[i].keywords[j] == kw;
      }
    } else {
      var i :| 0 <= i < |table| && Score(table[i].keywords, text) != 0;
      var ks := table[i].keywords;
      ScoreZeroIff(ks, text);
      var j :| 0 <= j < |ks| && Occurs(ks[j], text);
      assert ks[j] in table[i].keywords;
    }
  }

  /** When the classification is a real category, it is the category of
      some entry p: that entry has a positive score, no entry scores more,
      and every entry before it scores strictly less. */
  lemma ClassifyWinner(table: seq<Entry>, text: string) returns (p: nat)
    requires table != [] && ClassifyText(table, text) != Other
    ensures p < |table| && table[p].category == ClassifyText(table, text)
    ensures Scores(table, text)[p] > 0
    ensures forall j :: 0 <= j < |table| ==> Scores(table, text)[j] <= Scores(table, text)[p]
    ensures forall j :: 0 <= j < p ==> Scores(table, text)[j] < Scores(table, text)[p]
  {
    p := FirstMaxIndex(Scores(table, text));
  }

  /** If exactly one entry has a matching keyword, its category wins. */
  lemma ClassifySole(table: seq<Entry>, text: string, p: nat)
    requires p < |table| && Scores(table, text)[p] > 0
    requires forall j :: 0 <= j < |table| && j != p ==> Scores(table, text)[j] == 0
    ensures ClassifyText(table, text) == table[p].category
  {
    var scores := Scores(table, text);
    var k := FirstMaxIndex(scores);
    assert scores[p] <= scores[k];
  }

  /** Of two entries with the same score, the later one never wins: ties go
      to the category that comes first in the table. */
  lemma ClassifyTieGoesFirst(table: seq<Entry>, text: string, p: nat, q: nat)
    requires WellFormed(table)
    requires p < q < |table| && Scores(table, text)[p] == Scores(table, text)[q]
    ensures ClassifyText(table, text) != table[q].category
  {
    var scores := Scores(table, text);
    var k := FirstMaxIndex(scores);
    if k != q {
      assert table[k].category != table[q].category;
    }
  }

  /** The classifier ignores letter case in the subject and the body. */
  lemma ClassifyIgnoresCase(table: seq<Entry>, subject: string, body: string)
    requires table != []
    ensures ClassifyText(table, SearchText(Some(Lower(subject)), Some(Lower(body))))
         == ClassifyText(table, SearchText(Some(subject), Some(body)))
  {
    LowerAppend(Lower(subject), " ");
    LowerAppend(Lower(subject) + " ", Lower(body));
    LowerAppend(subject, " ");
    LowerAppend(subject + " ", body);
    LowerIdempotent(subject);
    LowerIdempotent(body);
    assert Lower(" ") == " ";
  }

  /** With the default table, each category's score is the number of its
      keywords found in the text, each counted once. */
  lemma DefaultScoreIsMatchedCount(i: nat, text: string)
    requires i < |DefaultTable|
    ensures Score(DefaultTable[i].keywords, text) == |Matched(DefaultTable[i].keywords, text)|
  {
    DefaultKeywordsDistinct();
    ScoreIsMatchedCount(DefaultTable[i].keywords, text);
  }
}
