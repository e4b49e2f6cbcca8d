/** `convert_to_english` (Backend/main.py): renders the flashcards and the
    multiple-choice questions of a decoded payload as numbered Q/A text. */
module Render {
  import opened JsonValue
  import opened Text

  /** The two lists the renderer knows, by payload key. */
  datatype ItemKind = Flashcard | Mcq

  function ListKey(kind: ItemKind): string
  {
    match kind
    case Flashcard => "flashcards"
    case Mcq => "mcqs"
  }

  /** The key holding an item's answer. */
  function AnswerKey(kind: ItemKind): string
  {
    match kind
    case Flashcard => "a"
    case Mcq => "answer"
  }

  /** The label written before the answer. */
  function AnswerLabel(kind: ItemKind): string
  {
    match kind
    case Flashcard => "A: "
    case Mcq => "Answer: "
  }

  /** A value `str()` can render here: not a list or a dict. */
  predicate IsScalar(v: Json)
  {
    !v.JArr? && !v.JObj?
  }

  /** `str(v)` for a scalar, as an f-string interpolates it. */
  function Show(v: Json): string
    requires IsScalar(v)
  {
    match v
    case JNull => "None"
    case JBool(b) => if b then "True" else "False"
    case JNum(n) => IntToDecimal(n)
    case JStr(s) => s
  }

  /** An item the source can format: a dict with a scalar `q` and a scalar
      answer. */
  predicate IsItem(v: Json, kind: ItemKind)
  {
    && v.JObj?
    && HasKey(v.fields, "q") && IsScalar(Get(v.fields, "q"))
    && HasKey(v.fields, AnswerKey(kind)) && IsScalar(Get(v.fields, AnswerKey(kind)))
  }

  predicate IsItemList(v: Json, kind: ItemKind)
  {
    v.JArr? && forall k :: 0 <= k < |v.items| ==> IsItem(v.items[k], kind)
  }

  /** The inputs `convert_to_english` handles without raising: a dict whose
      `flashcards` and `mcqs` entries, where present, are lists of items. */
  predicate Renderable(payload: Json)
  {
    && payload.JObj?
    && (HasKey(payload.fields, "flashcards") ==> IsItemList(Get(payload.fields, "flashcards"), Flashcard))
    && (HasKey(payload.fields, "mcqs") ==> IsItemList(Get(payload.fields, "mcqs"), Mcq))
  }

  /** One entry: `f"Q{i}: {q}\nA: {a}\n"` or `f"Q{i}: {q}\nAnswer: {answer}\n"`.
      The source raises on an item it cannot format; `Renderable` keeps such
      items out of every payload the renderer accepts, so the empty string
      given for them here is never part of a result. */
  function Entry(kind: ItemKind, i: nat, item: Json): string
  {
    if IsItem(item, kind) then
      var q := Show(Get(item.fields, "q"));
      var answer := Show(Get(item.fields, AnswerKey(kind)));
      "Q" + NatToDecimal(i) + ": " + q + "\n" + AnswerLabel(kind) + answer + "\n"
    else []
  }

  /** The f-string of one loop, as a value. */
  function EntryOf(kind: ItemKind): (nat, Json) -> string
  {
    (i: nat, item: Json) => Entry(kind, i, item)
  }

  /** `[f(i, x) for i, x in enumerate(items, start)]`. */
  function Enumerate(f: (nat, Json) -> string, items: seq<Json>, start: nat): seq<string>
  {
    if items == [] then []
    else [f(start, items[0])] + Enumerate(f, items[1..], start + 1)
  }

  /** `enumerate` keeps the order: the `k`-th output is `f` of the `k`-th
      item and the number `start + k`. */
  lemma {:induction false} EnumerateAt(f: (nat, Json) -> string, items: seq<Json>, start: nat)
    ensures |Enumerate(f, items, start)| == |items|
    ensures forall k :: 0 <= k < |items| ==> Enumerate(f, items, start)[k] == f(start + k, items[k])
  {
    if items != [] {
      var rest := items[1..];
      EnumerateAt(f, rest, start + 1);
      var all := Enumerate(f, items, start);
      forall k | 0 <= k < |items|
        ensures all[k] == f(start + k, items[k])
      {
        if k > 0 {
          assert all[k] == Enumerate(f, rest, start + 1)[k - 1];
          assert rest[k - 1] == items[k] && start + 1 + (k - 1) == start + k;
        }
      }
    }
  }

  /** The items of one list of the payload; none when the key is absent. */
  function ListOf(payload: Json, kind: ItemKind): (items: seq<Json>)
    requires Renderable(payload)
    ensures forall k :: 0 <= k < |items| ==> IsItem(items[k], kind)
  {
    if HasKey(payload.fields, ListKey(kind)) then Get(payload.fields, ListKey(kind)).items else []
  }

  /** The list `final` once both loops have run: flashcards, then MCQs, each
      numbered from 1. */
  function AllEntries(payload: Json): seq<string>
    requires Renderable(payload)
  {
    Enumerate(EntryOf(Flashcard), ListOf(payload, Flashcard), 1) +
    Enumerate(EntryOf(Mcq), ListOf(payload, Mcq), 1)
  }

  /** `all` holds one entry per card and then one per MCQ, in input order,
      each list numbered from 1. */
  predicate LaidOut(all: seq<string>, cards: seq<Json>, mcqs: seq<Json>)
  {
    && |all| == |cards| + |mcqs|
    && (forall k :: 0 <= k < |cards| ==> all[k] == Entry(Flashcard, k + 1, cards[k]))
    && (forall k :: 0 <= k < |mcqs| ==> all[|cards| + k] == Entry(Mcq, k + 1, mcqs[k]))
  }

  /** The rendered entries: one per flashcard then one per MCQ, in input
      order, each list numbered from 1. */
  lemma AllEntriesLayout(payload: Json)
    requires Renderable(payload)
    ensures LaidOut(AllEntries(payload), ListOf(payload, Flashcard), ListOf(payload, Mcq))
  {
    BothLoopsLayout(ListOf(payload, Flashcard), ListOf(payload, Mcq));
  }

  /** The two loops' output for any two lists of items. */
  lemma BothLoopsLayout(cards: seq<Json>, mcqs: seq<Json>)
    ensures LaidOut(Enumerate(EntryOf(Flashcard), cards, 1) + Enumerate(EntryOf(Mcq), mcqs, 1), cards, mcqs)
  {
    EnumerateAt(EntryOf(Flashcard), cards, 1);
    EnumerateAt(EntryOf(Mcq), mcqs, 1);
  }

  /** A payload with neither list, such as an error dict, renders as no
      entries at all. */
  lemma ErrorObjectRendersNothing(message: string)
    ensures Renderable(ErrorObject(message)) && AllEntries(ErrorObject(message)) == []
  {
    var fields := ErrorObject(message).fields;
    assert KeyIndex(fields, "flashcards") == -1 && KeyIndex(fields, "mcqs") == -1 by {
      assert fields[0].0 == "error";
    }
  }

  /** One flashcard `{"q": "2+2?", "a": "4"}` renders as `"Q1: 2+2?\nA: 4\n"`. */
  lemma SingleFlashcardScenario()
    ensures var card := JObj([("q", JStr("2+2?")), ("a", JStr("4"))]);
            var payload := JObj([("flashcards", JArr([card]))]);
            Renderable(payload) && Join(AllEntries(payload), "\n") == "Q1: 2+2?\nA: 4\n"
  {
    var card := JObj([("q", JStr("2+2?")), ("a", JStr("4"))]);
    var payload := JObj([("flashcards", JArr([card]))]);
    assert KeyIndex(card.fields, "q") == 0;
    assert KeyIndex(card.fields, "a") == 1;
    assert IsItem(card, Flashcard);
    assert KeyIndex(payload.fields, "flashcards") == 0;
    assert KeyIndex(payload.fields, "mcqs") == -1;
    assert NatToDecimal(1) == "1";
    assert Entry(Flashcard, 1, card) == "Q1: 2+2?\nA: 4\n";
    assert ListOf(payload, Flashcard) == [card];
    assert ListOf(payload, Mcq) == [];
    assert Enumerate(EntryOf(Flashcard), [card], 1) == [Entry(Flashcard, 1, card)] + Enumerate(EntryOf(Flashcard), [], 2);
    assert AllEntries(payload) == ["Q1: 2+2?\nA: 4\n"];
  }

  /** One `for i, item in enumerate(items, 1)` loop: appends each item's
      entry to `final`. */
  method AppendEntries(kind: ItemKind, items: seq<Json>, final: seq<string>) returns (extended: seq<string>)
    requires forall k :: 0 <= k < |items| ==> IsItem(items[k], kind)
    ensures extended == final + Enumerate(EntryOf(kind), items, 1)
  {
    EnumerateAt(EntryOf(kind), items, 1);
    ghost var all := Enumerate(EntryOf(kind), items, 1);
    extended := final;
    var i := 0;
    while i < |items|
      invariant 0 <= i <= |items|
      invariant extended == final + all[..i]
    {
      var entry := Entry(kind, 1 + i, items[i]);
      assert entry == all[i];
      extended := extended + [entry];
      ExtendSlice(final, all, i);
      i := i + 1;
    }
    assert all[..|items|] == all;
  }

  /** Appending the element at `i` to a prefix slice grows the slice by one. */
  lemma ExtendSlice<T>(front: seq<T>, s: seq<T>, i: nat)
    requires i < |s|
    ensures front + s[..i] + [s[i]] == front + s[..i + 1]
  {
    assert s[..i] + [s[i]] == s[..i + 1];
  }

  /** `convert_to_english(ai_out)`: the flashcard loop, then the MCQ loop,
      then `"\n".join(final)`. */
  method ConvertToEnglish(payload: Json) returns (text: string)
    requires Renderable(payload)
    ensures text == Join(AllEntries(payload), "\n")
    ensures !HasKey(payload.fields, "flashcards") && !HasKey(payload.fields, "mcqs") ==> text == ""
  {
    var final: seq<string> := [];
    if HasKey(payload.fields, "flashcards") {
      final := AppendEntries(Flashcard, Get(payload.fields, "flashcards").items, final);
    }
    assert final == Enumerate(EntryOf(Flashcard), ListOf(payload, Flashcard), 1);
    ghost var cardEntries := final;
    if HasKey(payload.fields, "mcqs") {
      final := AppendEntries(Mcq, Get(payload.fields, "mcqs").items, final);
    }
    assert final == cardEntries + Enumerate(EntryOf(Mcq), ListOf(payload, Mcq), 1);
    assert final == AllEntries(payload);
    text := Join(final, "\n");
  }
}
