/**
 How one utterance is classified (app.py lines 169-218): the `if`/`elif` chain
 of substring tests on the lower-cased utterance, the extraction of the deal
 name from the utterance as spoken, and the texts the assistant writes back.
 */
module Dispatch {
  import opened Wrappers
  import opened Text
  import opened Menu

  const ThankYou: string := "thank you"
  const MenuKeyword: string := "menu"
  const PriceKeyword: string := "price of"
  const AddKeyword: string := "add"
  const TotalKeyword: string := "total amount"

  /** The keywords in the order the loop tests them. */
  const Keywords: seq<string> := [ThankYou, MenuKeyword, PriceKeyword, AddKeyword, TotalKeyword]

  /** What the loop does with one utterance. `PriceOf` and `AddItem` carry
      the extracted deal name, `Chat` the utterance handed to the chat model. */
  datatype Intent =
    | NoInput
    | Close
    | ShowMenu
    | PriceOf(deal: string)
    | AddItem(deal: string)
    | TotalAmount
    | Chat(prompt: string)

  /** `s.split(kw)[-1].strip()`, applied to the utterance as spoken. */
  function DealName(s: string, kw: string): string
    requires kw != []
  {
    Strip(SplitLast(s, kw))
  }

  /** The position of an intent in the test order; `NoInput` comes after all. */
  function Rank(intent: Intent): nat {
    match intent
    case Close => 0
    case ShowMenu => 1
    case PriceOf(_) => 2
    case AddItem(_) => 3
    case TotalAmount => 4
    case Chat(_) => 5
    case NoInput => 6
  }

  /** A rule table read top to bottom: the index of the first keyword that
      `t` contains, or `|kws|` when it contains none. */
  function FirstKeyword(t: string, kws: seq<string>): (k: nat)
    ensures k <= |kws|
    ensures forall j :: 0 <= j < k ==> !Contains(t, kws[j])
    ensures k < |kws| ==> Contains(t, kws[k])
  {
    if kws == [] then 0
    else if Contains(t, kws[0]) then 0
    else 1 + FirstKeyword(t, kws[1..])
  }

  /** The utterance contains "thank you" in some casing. */
  predicate SaysThankYou(input: Option<string>) {
    input.Some? && Contains(Lower(input.value), ThankYou)
  }

  /** The loop body's chain of tests. The empty check and every keyword test
      look at the lower-cased utterance; the deal name is cut from the
      utterance in its original case. */
  function Classify(input: Option<string>): (intent: Intent)
    ensures intent == NoInput <==> input.None? || input.value == ""
    ensures intent == Close <==> SaysThankYou(input)
    ensures intent.Chat? ==> intent.prompt == input.value
  {
    if input.None? || Lower(input.value) == "" then NoInput
    else
      var s := input.value;
      var low := Lower(s);
      if Contains(low, ThankYou) then Close
      else if Contains(low, MenuKeyword) then ShowMenu
      else if Contains(low, PriceKeyword) then PriceOf(DealName(s, PriceKeyword))
      else if Contains(low, AddKeyword) then AddItem(DealName(s, AddKeyword))
      else if Contains(low, TotalKeyword) then TotalAmount
      else Chat(s)
  }

  /** The rule table evaluated on the five keywords, spelled out. */
  lemma FirstOfKeywords(t: string)
    ensures FirstKeyword(t, Keywords) ==
      if Contains(t, ThankYou) then 0
      else if Contains(t, MenuKeyword) then 1
      else if Contains(t, PriceKeyword) then 2
      else if Contains(t, AddKeyword) then 3
      else if Contains(t, TotalKeyword) then 4
      else 5
  {
    var k0 := Keywords;
    var k1 := [MenuKeyword, PriceKeyword, AddKeyword, TotalKeyword];
    var k2 := [PriceKeyword, AddKeyword, TotalKeyword];
    var k3 := [AddKeyword, TotalKeyword];
    var k4 := [TotalKeyword];
    assert k0[1..] == k1 && k1[1..] == k2 && k2[1..] == k3 && k3[1..] == k4 && k4[1..] == [];
    assert FirstKeyword(t, k4) == if Contains(t, TotalKeyword) then 0 else 1;
    assert FirstKeyword(t, k3) == if Contains(t, AddKeyword) then 0 else 1 + FirstKeyword(t, k4);
    assert FirstKeyword(t, k2) == if Contains(t, PriceKeyword) then 0 else 1 + FirstKeyword(t, k3);
    assert FirstKeyword(t, k1) == if Contains(t, MenuKeyword) then 0 else 1 + FirstKeyword(t, k2);
  }

  /** The `if`/`elif` chain is the keyword rule table read top to bottom:
      the branch taken is the one of the first keyword, in the order
      "thank you", "menu", "price of", "add", "total amount", that the
      lower-cased utterance contains; with none of them it is the chat
      fallback. So an utterance with both "menu" and "add" lists the menu. */
  lemma ClassifyFollowsRuleTable(s: string)
    requires s != ""
    ensures Rank(Classify(Some(s))) == FirstKeyword(Lower(s), Keywords)
  {
    var low := Lower(s);
    assert low != "";
    FirstOfKeywords(low);
    if Contains(low, ThankYou) {
      assert Classify(Some(s)) == Close;
    } else if Contains(low, MenuKeyword) {
      assert Classify(Some(s)) == ShowMenu;
    } else if Contains(low, PriceKeyword) {
      assert Classify(Some(s)).PriceOf?;
    } else if Contains(low, AddKeyword) {
      assert Classify(Some(s)).AddItem?;
    } else if Contains(low, TotalKeyword) {
      assert Classify(Some(s)) == TotalAmount;
    } else {
      assert Classify(Some(s)) == Chat(s);
    }
  }

  /** Which branch runs depends on the utterance only through its
      lower-cased form: "Thank You", "THANK YOU" and "thank you" all end the
      session, and likewise for every other keyword. */
  lemma IntentIgnoresCase(s: string, t: string)
    requires s != "" && Lower(s) == Lower(t)
    ensures Rank(Classify(Some(s))) == Rank(Classify(Some(t)))
  {
  }

  /** `p` is where the text after the last occurrence of `kw` in `s` begins
      (0 when `kw` does not occur). */
  ghost predicate EndOfLast(s: string, kw: string, p: int) {
    0 <= p <= |s| &&
    (p == 0 || OccursAt(s, kw, p - |kw|)) &&
    (forall j :: OccursAt(s, kw, j) ==> j + |kw| <= p)
  }

  /** For a separator that cannot overlap itself, the last piece of a split
      starts right after the last occurrence of the separator. */
  lemma SplitLastStartsAtEndOfLast(s: string, sep: string)
    requires sep != [] && NoSelfOverlap(sep)
    ensures EndOfLast(s, sep, |s| - |SplitLast(s, sep)|)
  {
    forall j | OccursAt(s, sep, j) ensures j + |sep| <= |s| - |SplitLast(s, sep)| {
      SplitLastAfterLastOccurrence(s, sep, j);
    }
  }

  lemma KeywordsDoNotSelfOverlap()
    ensures NoSelfOverlap(PriceKeyword) && NoSelfOverlap(AddKeyword)
  {
    UniqueHeadNoSelfOverlap(PriceKeyword);
    UniqueHeadNoSelfOverlap(AddKeyword);
  }

  /** `DealName(s, kw)` is the stripped text after the last case-sensitive
      occurrence of `kw` in `s`, or all of `s` stripped when `kw` does not
      occur in that casing. */
  lemma DealNameAfterLast(s: string, kw: string)
    requires kw != [] && NoSelfOverlap(kw)
    ensures exists p :: EndOfLast(s, kw, p) && DealName(s, kw) == Strip(s[p..])
    ensures !Contains(s, kw) ==> DealName(s, kw) == Strip(s)
  {
    var r := SplitLast(s, kw);
    SplitLastStartsAtEndOfLast(s, kw);
    assert s[|s| - |r|..] == r;
  }

  /** A price request carries the name cut from the utterance after "price of". */
  lemma PriceOfCarriesDealName(s: string)
    requires Classify(Some(s)).PriceOf?
    ensures Classify(Some(s)).deal == DealName(s, PriceKeyword)
  {
    var low := Lower(s);
    assert s != "" && low != "";
    assert !Contains(low, ThankYou) && !Contains(low, MenuKeyword);
    assert Contains(low, PriceKeyword);
  }

  /** An add request carries the name cut from the utterance after "add". */
  lemma AddItemCarriesDealName(s: string)
    requires Classify(Some(s)).AddItem?
    ensures Classify(Some(s)).deal == DealName(s, AddKeyword)
  {
    var low := Lower(s);
    assert !Contains(low, ThankYou);
    assert !Contains(low, MenuKeyword);
    assert !Contains(low, PriceKeyword);
  }

  /** The deal name of a price request is the stripped text after the LAST
      case-sensitive occurrence of "price of" in the utterance as spoken, or
      the whole stripped utterance when "price of" occurs only in another
      casing. */
  lemma PriceDealName(s: string)
    requires Classify(Some(s)).PriceOf?
    ensures exists p :: EndOfLast(s, PriceKeyword, p) && Classify(Some(s)).deal == Strip(s[p..])
    ensures !Contains(s, PriceKeyword) ==> Classify(Some(s)).deal == Strip(s)
  {
    KeywordsDoNotSelfOverlap();
    PriceOfCarriesDealName(s);
    DealNameAfterLast(s, PriceKeyword);
  }

  /** The deal name of an add request is the stripped text after the LAST
      case-sensitive occurrence of "add" in the utterance as spoken, or the
      whole stripped utterance when "add" occurs only in another casing:
      "Add Zinger" asks for a deal named "Add Zinger". */
  lemma AddDealName(s: string)
    requires Classify(Some(s)).AddItem?
    ensures exists p :: EndOfLast(s, AddKeyword, p) && Classify(Some(s)).deal == Strip(s[p..])
    ensures !Contains(s, AddKeyword) ==> Classify(Some(s)).deal == Strip(s)
  {
    KeywordsDoNotSelfOverlap();
    AddItemCarriesDealName(s);
    DealNameAfterLast(s, AddKeyword);
  }

  /** A text missing one of the keyword's characters does not contain it. */
  lemma MissingCharNoKeyword(t: string, kw: string, k: int)
    requires 0 <= k < |kw| && forall i :: 0 <= i < |t| ==> t[i] != kw[k]
    ensures !Contains(t, kw)
  {
    forall j | 0 <= j && j + |kw| <= |t| ensures !OccursAt(t, kw, j) {
      assert t[j..j + |kw|][k] == t[j + k];
    }
  }

  /** The keyword tests are raw substring tests: "address" is an add request. */
  lemma AddressIsAdd()
    ensures Classify(Some("address")).AddItem?
  {
    var a := "address";
    assert Lower(a) == a;
    MissingCharNoKeyword(a, ThankYou, 1);
    MissingCharNoKeyword(a, MenuKeyword, 0);
    MissingCharNoKeyword(a, PriceKeyword, 0);
    assert OccursAt(a, AddKeyword, 0);
  }

  /** Lower-casing "Add Zinger" changes its two capital letters only. */
  lemma LowerAddZinger(s: string)
    requires s == "Add Zinger"
    ensures Lower(s) == "add zinger"
  {
    assert forall i :: 0 <= i < |s| ==> Lower(s)[i] == "add zinger"[i];
  }

  /** "add zinger" contains "add" and none of the keywords tested before it. */
  lemma AddZingerKeywords(low: string)
    requires low == "add zinger"
    ensures !Contains(low, ThankYou) && !Contains(low, MenuKeyword) && !Contains(low, PriceKeyword)
    ensures Contains(low, AddKeyword)
  {
    MissingCharNoKeyword(low, ThankYou, 1);
    MissingCharNoKeyword(low, MenuKeyword, 0);
    MissingCharNoKeyword(low, PriceKeyword, 0);
    assert OccursAt(low, AddKeyword, 0);
  }

  /** "Add Zinger" holds no lower-case "add" and strips to itself. */
  lemma AddZingerAsSpoken(s: string)
    requires s == "Add Zinger"
    ensures !Contains(s, AddKeyword) && Strip(s) == s
  {
    MissingCharNoKeyword(s, AddKeyword, 0);
    StripKeepsTrimmed(s);
  }

  /** The keyword test reads the lower-cased text and the split reads the
      text as spoken: "Add Zinger" is an add request, and since it holds no
      lower-case "add" it asks for a deal named "Add Zinger". */
  lemma AddZingerAsksForAddZinger(s: string)
    requires s == "Add Zinger"
    ensures Classify(Some(s)) == AddItem(s)
  {
    LowerAddZinger(s);
    AddZingerKeywords(Lower(s));
    AddZingerAsSpoken(s);
  }

  /** Every keyword starts with a letter, so a text made only of whitespace
      contains none of them. */
  lemma WhitespaceHasNoKeyword(t: string, kw: string)
    requires kw != [] && !IsSpace(kw[0])
    requires forall i :: 0 <= i < |t| ==> IsSpace(t[i])
    ensures !Contains(t, kw)
  {
    forall j | 0 <= j && j + |kw| <= |t| ensures !OccursAt(t, kw, j) {
      assert t[j..j + |kw|][0] == t[j];
    }
  }

  /** An utterance of whitespace only is not treated as empty: it contains
      no keyword and goes, unchanged, to the chat fallback. */
  lemma WhitespaceGoesToChat(s: string)
    requires s != "" && forall i :: 0 <= i < |s| ==> IsSpace(s[i])
    ensures Classify(Some(s)) == Chat(s)
  {
    var low := Lower(s);
    assert forall i :: 0 <= i < |low| ==> IsSpace(low[i]);
    WhitespaceHasNoKeyword(low, ThankYou);
    WhitespaceHasNoKeyword(low, MenuKeyword);
    WhitespaceHasNoKeyword(low, PriceKeyword);
    WhitespaceHasNoKeyword(low, AddKeyword);
    WhitespaceHasNoKeyword(low, TotalKeyword);
  }

  // ---------------------------------------------------------------------------
  // The texts written back

  const Goodbye: string := "Goodbye! Have a great day!"

  /** The `Deal` column in menu order. */
  function Deals(menu: seq<Item>): (names: seq<string>)
    ensures |names| == |menu|
    ensures forall i :: 0 <= i < |menu| ==> names[i] == menu[i].deal
  {
    if menu == [] then [] else [menu[0].deal] + Deals(menu[1..])
  }

  const MenuIntro: string := "Here is our menu: "

  function MenuReply(menu: seq<Item>): string {
    MenuIntro + Join(Deals(menu), ", ")
  }

  /** The menu text names every deal of the menu after its opening words. */
  lemma MenuReplyNamesEveryDeal(menu: seq<Item>, i: int)
    requires 0 <= i < |menu|
    ensures exists p :: |MenuIntro| <= p && OccursAt(MenuReply(menu), menu[i].deal, p)
  {
    var names := Join(Deals(menu), ", ");
    JoinHasEveryPart(Deals(menu), ", ", i);
    var p :| OccursAt(names, Deals(menu)[i], p);
    assert MenuReply(menu)[|MenuIntro|..] == names;
    OccursAtSuffix(MenuReply(menu), menu[i].deal, |MenuIntro|, p);
  }

  /** The deals are listed in menu order: one more row at the end of the
      menu adds ", " and its deal at the end of the text. */
  lemma MenuReplyInOrder(menu: seq<Item>, item: Item)
    ensures MenuReply([item]) == MenuIntro + item.deal
    ensures menu != [] ==> MenuReply(menu + [item]) == MenuReply(menu) + ", " + item.deal
  {
    assert Deals([item]) == [item.deal];
    if menu != [] {
      assert Deals(menu + [item]) == Deals(menu) + [item.deal];
      JoinSnoc(Deals(menu), item.deal, ", ");
    }
  }

  function PriceReply(deal: string, item: Item): string {
    "The price of " + deal + " is Rs. " + NatToString(item.price) + ". Description: " + item.description
  }

  function NoDetailsReply(deal: string): string {
    "Sorry, I couldn't find the details for " + deal + "."
  }

  function AddedReply(deal: string, total: nat): string {
    "Added " + deal + " to your order. Your current total is Rs. " + NatToString(total) + "."
  }

  function NotOnMenuReply(deal: string): string {
    "Sorry, I couldn't find " + deal + " on the menu."
  }

  function TotalReply(total: nat): string {
    "Your current total order amount is Rs. " + NatToString(total) + "."
  }

  function ChatReply(answer: string): string {
    "GPT-4 Turbo response: " + answer
  }

  /** The text the assistant writes back for an utterance classified as
      `intent`, given the menu, the total after the utterance was handled,
      and the chat model; `None` when nothing is written. Only an empty
      utterance gets no reply. */
  function Reply(intent: Intent, menu: seq<Item>, total: nat, chat: string -> string): (r: Option<string>)
    ensures r.None? <==> intent == NoInput
  {
    match intent
    case NoInput => None
    case Close => Some(Goodbye)
    case ShowMenu => Some(MenuReply(menu))
    case PriceOf(d) =>
      Some(if Lookup(d, menu).Some? then PriceReply(d, Lookup(d, menu).value) else NoDetailsReply(d))
    case AddItem(d) =>
      Some(if Lookup(d, menu).Some? then AddedReply(d, total) else NotOnMenuReply(d))
    case TotalAmount => Some(TotalReply(total))
    case Chat(prompt) => Some(ChatReply(chat(prompt)))
  }
}
