/**
 The ordering session (app.py lines 157-218): the running order and total
 that the loop keeps, the handling of one utterance, and the loop itself
 over the utterances the customer speaks.
 */
module Assistant {
  import opened Wrappers
  import opened Text
  import opened Menu
  import opened Dispatch

  const Welcome: string := "Welcome to the drive-in! How can I assist you today?"
  const NoMenu: string := "Sorry, I couldn't retrieve the menu at the moment."

  /** The sum of the prices of `items`. */
  function Total(items: seq<Item>): nat {
    if items == [] then 0 else items[0].price + Total(items[1..])
  }

  /** Appending an item adds its price to the sum. */
  lemma {:induction false} TotalAppend(items: seq<Item>, x: Item)
    ensures Total(items + [x]) == Total(items) + x.price
  {
    if items != [] {
      assert (items + [x])[1..] == items[1..] + [x];
      TotalAppend(items[1..], x);
    }
  }

  predicate AllFromMenu(items: seq<Item>, menu: seq<Item>) {
    forall k :: 0 <= k < |items| ==> items[k] in menu
  }

  /** The item an utterance adds to the order: the menu row found for the
      deal name of an add request, and nothing for any other utterance. */
  function AddedBy(input: Option<string>, menu: seq<Item>): (r: Option<Item>)
    ensures r.Some? ==> r.value in menu
    ensures r.Some? <==> Classify(input).AddItem? && Lookup(Classify(input).deal, menu).Some?
  {
    match Classify(input)
    case AddItem(d) => Lookup(d, menu)
    case _ => None
  }

  /** What each utterance of a run adds, utterance by utterance. */
  function Outcomes(inputs: seq<Option<string>>, menu: seq<Item>): seq<Option<Item>> {
    seq(|inputs|, k requires 0 <= k < |inputs| => AddedBy(inputs[k], menu))
  }

  /** The present values of `outs`, in order. */
  function Collect<T>(outs: seq<Option<T>>): seq<T> {
    if outs == [] then []
    else
      var before := Collect(outs[..|outs| - 1]);
      match outs[|outs| - 1]
      case Some(item) => before + [item]
      case None => before
  }

  /** With every value present, collecting keeps each of them in place. */
  lemma {:induction false} CollectAllPresent<T>(outs: seq<Option<T>>)
    requires forall k :: 0 <= k < |outs| ==> outs[k].Some?
    ensures |Collect(outs)| == |outs|
    ensures forall k :: 0 <= k < |outs| ==> Collect(outs)[k] == outs[k].value
  {
    if outs != [] {
      var front := outs[..|outs| - 1];
      CollectAllPresent(front);
      assert Collect(outs) == Collect(front) + [outs[|outs| - 1].value];
    }
  }

  /** Collecting values that are menu rows yields menu rows only. */
  lemma {:induction false} CollectFromMenu(outs: seq<Option<Item>>, menu: seq<Item>)
    requires forall k :: 0 <= k < |outs| ==> outs[k].Some? ==> outs[k].value in menu
    ensures AllFromMenu(Collect(outs), menu)
  {
    if outs != [] {
      CollectFromMenu(outs[..|outs| - 1], menu);
    }
  }

  /** The items a run of utterances adds to the order, in order: one for each
      successful add request, and nothing for any other utterance. */
  function AddedItems(inputs: seq<Option<string>>, menu: seq<Item>): seq<Item> {
    Collect(Outcomes(inputs, menu))
  }

  /** Hearing one more utterance extends the added items by what it adds. */
  lemma AddedItemsSnoc(inputs: seq<Option<string>>, input: Option<string>, menu: seq<Item>)
    ensures AddedItems(inputs + [input], menu) ==
      match AddedBy(input, menu)
      case Some(item) => AddedItems(inputs, menu) + [item]
      case None => AddedItems(inputs, menu)
  {
    var outs := Outcomes(inputs + [input], menu);
    assert outs[..|inputs|] == Outcomes(inputs, menu);
    assert outs[|inputs|] == AddedBy(input, menu);
  }

  /** Everything a run of utterances adds to the order is a row of the menu. */
  lemma AddedItemsFromMenu(inputs: seq<Option<string>>, menu: seq<Item>)
    ensures AllFromMenu(AddedItems(inputs, menu), menu)
  {
    CollectFromMenu(Outcomes(inputs, menu), menu);
  }

  /** A run of k successful add requests leaves k items, the ones the
      requests named, in the order they were made. */
  lemma SuccessfulAddsAppendInOrder(inputs: seq<Option<string>>, menu: seq<Item>)
    requires forall k :: 0 <= k < |inputs| ==> AddedBy(inputs[k], menu).Some?
    ensures |AddedItems(inputs, menu)| == |inputs|
    ensures forall k :: 0 <= k < |inputs| ==> AddedItems(inputs, menu)[k] == AddedBy(inputs[k], menu).value
  {
    CollectAllPresent(Outcomes(inputs, menu));
  }

  /** The position of the first utterance of `inputs` that says "thank
      you", if any, read from the last one back. */
  function FirstThanks(inputs: seq<Option<string>>): Option<nat> {
    if inputs == [] then None
    else
      match FirstThanks(inputs[..|inputs| - 1])
      case Some(i) => Some(i)
      case None => if SaysThankYou(inputs[|inputs| - 1]) then Some(|inputs| - 1) else None
  }

  /** `FirstThanks` finds an utterance that says "thank you" with none
      before it, and finds nothing exactly when no utterance says it. */
  lemma {:induction false} FirstThanksIsFirst(inputs: seq<Option<string>>)
    ensures match FirstThanks(inputs)
      case Some(i) =>
        i < |inputs| && SaysThankYou(inputs[i]) && forall k :: 0 <= k < i ==> !SaysThankYou(inputs[k])
      case None => forall k :: 0 <= k < |inputs| ==> !SaysThankYou(inputs[k])
  {
    if inputs != [] {
      var front := inputs[..|inputs| - 1];
      FirstThanksIsFirst(front);
      assert forall k :: 0 <= k < |front| ==> front[k] == inputs[k];
    }
  }

  /** Hearing one more utterance: the first "thank you" stays where it was,
      or is the new utterance when that one says it. */
  lemma FirstThanksSnoc(inputs: seq<Option<string>>, input: Option<string>)
    ensures FirstThanks(inputs + [input]) ==
      if FirstThanks(inputs).Some? then FirstThanks(inputs)
      else if SaysThankYou(input) then Some(|inputs|) else None
  {
    assert (inputs + [input])[..|inputs|] == inputs;
  }

  /** Once a prefix holds a "thank you", the whole run has its first one
      at the same place. */
  lemma {:induction false} FirstThanksPrefix(inputs: seq<Option<string>>, n: nat)
    requires n <= |inputs| && FirstThanks(inputs[..n]).Some?
    ensures FirstThanks(inputs) == FirstThanks(inputs[..n])
    decreases |inputs|
  {
    if n == |inputs| {
      assert inputs[..n] == inputs;
    } else {
      var front := inputs[..|inputs| - 1];
      assert front[..n] == inputs[..n];
      FirstThanksPrefix(front, n);
    }
  }

  /** The texts written for one reply: none for `None`. */
  function Shown(reply: Option<string>): seq<string> {
    if reply.Some? then [reply.value] else []
  }

  /** The texts a run of utterances writes, in order: the reply to each
      utterance but an empty one, given the total after it was handled. */
  function Replies(inputs: seq<Option<string>>, menu: seq<Item>, chat: string -> string): seq<string> {
    if inputs == [] then []
    else
      Replies(inputs[..|inputs| - 1], menu, chat) +
      Shown(Reply(Classify(inputs[|inputs| - 1]), menu, Total(AddedItems(inputs, menu)), chat))
  }

  /** Hearing one more utterance writes its reply after the earlier ones,
      with the total that includes what it added. */
  lemma RepliesSnoc(inputs: seq<Option<string>>, input: Option<string>, menu: seq<Item>, chat: string -> string)
    ensures Replies(inputs + [input], menu, chat) ==
      Replies(inputs, menu, chat) + Shown(Reply(Classify(input), menu, Total(AddedItems(inputs + [input], menu)), chat))
  {
    assert (inputs + [input])[..|inputs|] == inputs;
  }

  /** A run that stops at its first "thank you" has "Goodbye" as its last
      text. */
  lemma GoodbyeIsLast(inputs: seq<Option<string>>, menu: seq<Item>, chat: string -> string)
    requires inputs != [] && FirstThanks(inputs) == Some(|inputs| - 1)
    ensures Replies(inputs, menu, chat) != []
    ensures Replies(inputs, menu, chat)[|Replies(inputs, menu, chat)| - 1] == Goodbye
  {
    var front, last := inputs[..|inputs| - 1], inputs[|inputs| - 1];
    assert inputs == front + [last];
    RepliesSnoc(front, last, menu, chat);
    FirstThanksIsFirst(inputs);
    assert Classify(last) == Close;
  }

  /** One ordering conversation: the menu it was started with, the items
      ordered so far, their running total, and whether the customer has
      said goodbye. The ghost field `history` records the utterances
      handled so far. */
  class Session {
    const menu: seq<Item>
    const chat: string -> string
    var order: seq<Item>
    var total: nat
    var ended: bool
    var written: seq<string>
    ghost var history: seq<Option<string>>

    /** The total is the sum of the prices in the order, and every ordered
        item is a row of the menu. */
    ghost predicate Consistent()
      reads this
    {
      total == Total(order) && AllFromMenu(order, menu)
    }

    /** `Consistent`, the order is what the utterances heard so far added,
        the texts written are their replies, and the session has ended
        exactly when the last of them, and no earlier one, said "thank you". */
    ghost predicate Valid()
      reads this
    {
      && Consistent()
      && order == AddedItems(history, menu)
      && written == Replies(history, menu, chat)
      && (!ended ==> FirstThanks(history).None?)
      && (ended ==> history != [] && FirstThanks(history) == Some(|history| - 1))
    }

    /** `order = []` and `total_price = 0` (app.py lines 160-161). */
    constructor (menu: seq<Item>, chat: string -> string)
      ensures Valid() && this.menu == menu && this.chat == chat
      ensures order == [] && total == 0 && !ended && written == [] && history == []
    {
      this.menu := menu;
      this.chat := chat;
      order := [];
      total := 0;
      ended := false;
      written := [];
      history := [];
    }

    /** The branch of the `if`/`elif` chain for an utterance already
        classified as `intent`. Only an add request whose deal is found
        changes the order and the total, only "thank you" ends the session,
        and the reply is the text of that branch. */
    method Perform(intent: Intent) returns (reply: Option<string>)
      requires Consistent()
      modifies this
      ensures Consistent() && written == old(written) && history == old(history)
      ensures ended == (old(ended) || intent == Close)
      ensures match intent
        case AddItem(d) =>
          (match Lookup(d, menu)
           case Some(item) => order == old(order) + [item] && total == old(total) + item.price
           case None => order == old(order) && total == old(total))
        case _ => order == old(order) && total == old(total)
      ensures reply == Reply(intent, menu, total, chat)
    {
      match intent
      case NoInput =>
        reply := None;
      case Close =>
        ended := true;
        reply := Some(Goodbye);
      case ShowMenu =>
        reply := Some(MenuReply(menu));
      case PriceOf(d) =>
        var item := GetItemDetails(d, menu);
        if item.Some? {
          reply := Some(PriceReply(d, item.value));
        } else {
          reply := Some(NoDetailsReply(d));
        }
      case AddItem(d) =>
        var item := GetItemDetails(d, menu);
        if item.Some? {
          TotalAppend(order, item.value);
          order := order + [item.value];
          total := total + item.value.price;
          reply := Some(AddedReply(d, total));
        } else {
          reply := Some(NotOnMenuReply(d));
        }
      case TotalAmount =>
        reply := Some(TotalReply(total));
      case Chat(prompt) =>
        reply := Some(ChatReply(chat(prompt)));
    }

    /** One pass of the loop body for the utterance `input`: classify it,
        take its branch, and record it as heard. Only a successful add
        request changes the order and the total, and only "thank you" ends
        the session. */
    method Handle(input: Option<string>) returns (reply: Option<string>)
      requires Valid() && !ended
      modifies this
      ensures Valid() && history == old(history) + [input]
      ensures ended <==> SaysThankYou(input)
      ensures match AddedBy(input, menu)
        case Some(item) => order == old(order) + [item] && total == old(total) + item.price
        case None => order == old(order) && total == old(total)
      ensures reply == Reply(Classify(input), menu, total, chat)
      ensures written == old(written) + Shown(reply)
    {
      ghost var before := history;
      reply := Perform(Classify(input));
      written := written + Shown(reply);
      history := before + [input];
      AddedItemsSnoc(before, input, menu);
      assert order == AddedItems(history, menu);
      RepliesSnoc(before, input, menu, chat);
      FirstThanksSnoc(before, input);
    }

    /** The loop: handle the utterances one by one until one of them says
        "thank you" or they run out. Returns how many were heard. */
    method Run(inputs: seq<Option<string>>) returns (heard: nat)
      requires Valid() && !ended && history == []
      modifies this
      ensures Valid() && heard <= |inputs| && history == inputs[..heard]
      ensures written == Replies(inputs[..heard], menu, chat)
      ensures ended <==> FirstThanks(inputs).Some?
      ensures heard == (match FirstThanks(inputs) case Some(i) => i + 1 case None => |inputs|)
    {
      heard := 0;
      while heard < |inputs| && !ended
        invariant Valid() && heard <= |inputs| && history == inputs[..heard]
      {
        var _ := Handle(inputs[heard]);
        assert inputs[..heard + 1] == inputs[..heard] + [inputs[heard]];
        heard := heard + 1;
      }
      if ended {
        FirstThanksPrefix(inputs, heard);
      } else {
        assert inputs[..heard] == inputs;
      }
    }
  }

  /** The session as a whole: greet, give up when the menu could not be read
      or is empty, and otherwise handle the utterances one by one until one
      of them says "thank you". Returns the texts written, the final order
      and total, how many utterances were heard, and whether the customer
      said goodbye. */
  method Serve(loaded: Option<seq<Item>>, inputs: seq<Option<string>>, chat: string -> string)
    returns (transcript: seq<string>, order: seq<Item>, total: nat, heard: nat, ended: bool)
    ensures transcript != [] && transcript[0] == Welcome
    ensures loaded.None? || loaded.value == [] ==>
      transcript == [Welcome, NoMenu] && order == [] && total == 0 && heard == 0 && !ended
    ensures loaded.Some? && loaded.value != [] ==>
      && heard <= |inputs|
      && (ended <==> FirstThanks(inputs).Some?)
      && heard == (match FirstThanks(inputs) case Some(i) => i + 1 case None => |inputs|)
      && transcript == [Welcome] + Replies(inputs[..heard], loaded.value, chat)
      && (ended ==> transcript[|transcript| - 1] == Goodbye)
      && order == AddedItems(inputs[..heard], loaded.value)
      && total == Total(order)
      && AllFromMenu(order, loaded.value)
  {
    transcript := [Welcome];
    if loaded.None? || loaded.value == [] {
      transcript := transcript + [NoMenu];
      return transcript, [], 0, 0, false;
    }
    var menu := loaded.value;
    var session := new Session(menu, chat);
    heard := session.Run(inputs);
    transcript := transcript + session.written;
    if session.ended {
      GoodbyeIsLast(inputs[..heard], menu, chat);
    }
    order, total, ended := session.order, session.total, session.ended;
  }
}
