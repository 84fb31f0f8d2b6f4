/** The evidence bundle's canonical printer works on live JavaScript values, which may share parts
    and may be circular. It keeps the set of objects it is inside of and refuses to enter one again. */
module EvidenceJson {
  import opened Text
  import opened Sorting
  import opened Primitives
  import opened JsonText
  import opened CanonicalJson

  /** A JavaScript value: a scalar, something JSON has no form for, or a reference to an object. */
  datatype Value = Plain(scalar: Json) | NotJson | Ref(id: nat)

  datatype Slot = Slot(key: Text, value: Value)

  /** What a reference points at. `Exotic` is a sparse or decorated array, an object with a prototype
      of its own, or an object with symbol, hidden or computed properties. */
  datatype Node = ArrayNode(items: seq<Value>) | ObjectNode(slots: seq<Slot>) | Exotic

  type Heap = map<nat, Node>

  predicate PrintableScalar(v: Json) {
    v.Null? || v.Bool? || v.Num? || v.Str?
  }

  /** The text, or None where the source throws a TypeError. */
  function Print(heap: Heap, v: Value, ancestors: set<nat>): (r: Option<Text>)
    decreases |heap.Keys - ancestors|, 0, 0
  {
    match v
    case Plain(s) => if PrintableScalar(s) then Some(Scalar(s)) else None
    case NotJson => None
    case Ref(id) =>
      if id !in heap || id in ancestors then None
      else
        EnterShrinks(heap, ancestors, id);
        PrintNode(heap, heap[id], ancestors + {id})
  }

  /** The inside of an object that has been entered. */
  function PrintNode(heap: Heap, node: Node, ancestors: set<nat>): (r: Option<Text>)
    decreases |heap.Keys - ancestors|, 2, 0
  {
    match node
    case Exotic => None
    case ArrayNode(items) =>
      (match PrintItems(heap, items, ancestors)
       case None => None
       case Some(texts) => Some([OPEN_BRACKET] + Join(texts, [COMMA]) + [CLOSE_BRACKET]))
    case ObjectNode(slots) =>
      match PrintSlots(heap, slots, ancestors)
      case None => None
      case Some(entries) => Some([OPEN_BRACE] + Join(LookedUp(entries), [COMMA]) + [CLOSE_BRACE])
  }

  function PrintItems(heap: Heap, items: seq<Value>, ancestors: set<nat>): (r: Option<seq<Text>>)
    decreases |heap.Keys - ancestors|, 1, |items|
  {
    if items == [] then Some([])
    else
      match (Print(heap, items[0], ancestors), PrintItems(heap, items[1..], ancestors))
      case (Some(text), Some(texts)) => Some([text] + texts)
      case _ => None
  }

  function PrintSlots(heap: Heap, slots: seq<Slot>, ancestors: set<nat>): (r: Option<seq<Entry>>)
    decreases |heap.Keys - ancestors|, 1, |slots|
  {
    if slots == [] then Some([])
    else
      match (Print(heap, slots[0].value, ancestors), PrintSlots(heap, slots[1..], ancestors))
      case (Some(text), Some(entries)) => Some([Entry(slots[0].key, text)] + entries)
      case _ => None
  }

  lemma EnterShrinks(heap: Heap, ancestors: set<nat>, id: nat)
    requires id in heap && id !in ancestors
    ensures |heap.Keys - (ancestors + {id})| < |heap.Keys - ancestors|
  {
    assert heap.Keys - (ancestors + {id}) == (heap.Keys - ancestors) - {id};
  }

  /** The same printer with the one set it shares between all levels, as the source keeps it. */
  class Printer {
    var ancestors: set<nat>

    constructor ()
      ensures ancestors == {}
    {
      ancestors := {};
    }

    /** On every way out, thrown errors included, the set is what it was on the way in. */
    method Canonicalize(heap: Heap, v: Value) returns (r: Option<Text>)
      modifies this
      ensures ancestors == old(ancestors)
      ensures r == Print(heap, v, ancestors)
      decreases |heap.Keys - ancestors|, 3, 0
    {
      hide PrintNode, Scalar;
      match v {
        case Plain(s) =>
          r := if PrintableScalar(s) then Some(Scalar(s)) else None;
        case NotJson =>
          r := None;
        case Ref(id) =>
          if id !in heap || id in ancestors {
            r := None;
          } else {
            r := Enter(heap, id);
          }
      }
    }

    method Enter(heap: Heap, id: nat) returns (r: Option<Text>)
      requires id in heap && id !in ancestors
      modifies this
      ensures ancestors == old(ancestors)
      ensures r == PrintNode(heap, heap[id], ancestors + {id})
      decreases |heap.Keys - ancestors|, 0, 0
    {
      hide PrintNode;
      EnterShrinks(heap, ancestors, id);
      ancestors := ancestors + {id};
      r := CanonicalizeNode(heap, heap[id]);
      ancestors := ancestors - {id};
    }

    method CanonicalizeNode(heap: Heap, node: Node) returns (r: Option<Text>)
      modifies this
      ensures ancestors == old(ancestors)
      ensures r == PrintNode(heap, node, ancestors)
      decreases |heap.Keys - ancestors|, 5, 0
    {
      match node {
        case Exotic =>
          return None;
        case ArrayNode(items) =>
          var texts := CanonicalizeItems(heap, items);
          return match texts
                 case None => None
                 case Some(ts) => Some([OPEN_BRACKET] + Join(ts, [COMMA]) + [CLOSE_BRACKET]);
        case ObjectNode(slots) =>
          var entries := CanonicalizeSlots(heap, slots);
          return match entries
                 case None => None
                 case Some(es) => Some([OPEN_BRACE] + Join(LookedUp(es), [COMMA]) + [CLOSE_BRACE]);
      }
    }

    method CanonicalizeItems(heap: Heap, items: seq<Value>) returns (r: Option<seq<Text>>)
      modifies this
      ensures ancestors == old(ancestors)
      ensures r == PrintItems(heap, items, ancestors)
      decreases |heap.Keys - ancestors|, 4, |items|
    {
      if items == [] {
        return Some([]);
      }
      var first := Canonicalize(heap, items[0]);
      if first == None {
        return None;
      }
      var others := CanonicalizeItems(heap, items[1..]);
      return if others == None then None else Some([first.value] + others.value);
    }

    method CanonicalizeSlots(heap: Heap, slots: seq<Slot>) returns (r: Option<seq<Entry>>)
      modifies this
      ensures ancestors == old(ancestors)
      ensures r == PrintSlots(heap, slots, ancestors)
      decreases |heap.Keys - ancestors|, 4, |slots|
    {
      if slots == [] {
        return Some([]);
      }
      var first := Canonicalize(heap, slots[0].value);
      if first == None {
        return None;
      }
      var others := CanonicalizeSlots(heap, slots[1..]);
      return if others == None then None else Some([Entry(slots[0].key, first.value)] + others.value);
    }
  }

  // ---------- meaning ----------

  /** The finite JSON value w is what following all references from v builds. */
  ghost predicate Unfolds(heap: Heap, v: Value, w: Json)
    decreases w
  {
    match v
    case Plain(s) => PrintableScalar(s) && w == s
    case NotJson => false
    case Ref(id) =>
      id in heap &&
      match (heap[id], w)
      case (ArrayNode(items), Arr(ws)) =>
        |items| == |ws| && forall i | 0 <= i < |ws| :: Unfolds(heap, items[i], ws[i])
      case (ObjectNode(slots), Obj(ms)) =>
        |slots| == |ms| && forall i | 0 <= i < |ms| ::
            slots[i].key == ms[i].key && Unfolds(heap, slots[i].value, ms[i].value)
      case _ => false
  }

  /** Objects hold each key once. */
  ghost predicate SlotsUnique(heap: Heap) {
    forall id | id in heap && heap[id].ObjectNode? ::
      forall i, j | 0 <= i < j < |heap[id].slots| :: heap[id].slots[i].key != heap[id].slots[j].key
  }

  lemma {:induction false} UnfoldingUnique(heap: Heap, v: Value, a: Json, b: Json)
    requires Unfolds(heap, v, a) && Unfolds(heap, v, b)
    ensures a == b
    decreases a
  {
    if v.Ref? {
      match (a, b) {
        case (Arr(xs), Arr(ys)) =>
          forall i | 0 <= i < |xs| ensures xs[i] == ys[i] {
            UnfoldingUnique(heap, heap[v.id].items[i], xs[i], ys[i]);
          }
        case (Obj(ms), Obj(ns)) =>
          forall i | 0 <= i < |ms| ensures ms[i] == ns[i] {
            UnfoldingUnique(heap, heap[v.id].slots[i].value, ms[i].value, ns[i].value);
          }
        case _ =>
      }
    }
  }

  /** Everything the printer is inside of unfolds to something strictly larger than w. */
  ghost predicate Inside(heap: Heap, ancestors: set<nat>, w: Json) {
    forall id, u | id in ancestors && Unfolds(heap, Ref(id), u) :: w < u
  }

  lemma InsideDeeper(heap: Heap, ancestors: set<nat>, id: nat, w: Json, part: Json)
    requires Inside(heap, ancestors, w) && Unfolds(heap, Ref(id), w) && part < w
    ensures Inside(heap, ancestors + {id}, part)
  {
    forall i, u | i in ancestors + {id} && Unfolds(heap, Ref(i), u) ensures part < u {
      if i == id {
        UnfoldingUnique(heap, Ref(id), w, u);
      }
    }
  }

  lemma {:induction false} PrintsUnfolding(heap: Heap, v: Value, ancestors: set<nat>, w: Json)
    requires SlotsUnique(heap) && Unfolds(heap, v, w) && Inside(heap, ancestors, w)
    ensures Print(heap, v, ancestors) == Some(Canonical(w))
    decreases w, 0
  {
    hide LookedUp, SortBy, Join, EncodeMembers, EncodeItems, Scalar;
    if v.Ref? {
      assert v.id !in ancestors;
      var within := ancestors + {v.id};
      match w {
        case Arr(ws) =>
          forall i | 0 <= i < |ws| ensures Inside(heap, within, ws[i]) {
            InsideDeeper(heap, ancestors, v.id, w, ws[i]);
          }
          PrintsItems(heap, heap[v.id].items, within, ws);
        case Obj(ms) =>
          forall i | 0 <= i < |ms| ensures Inside(heap, within, ms[i].value) {
            InsideDeeper(heap, ancestors, v.id, w, ms[i].value);
          }
          PrintsSlots(heap, heap[v.id].slots, within, ms);
          LookedUpIsNormal(ms);
        case _ =>
      }
    }
  }

  lemma {:induction false} PrintsItems(heap: Heap, items: seq<Value>, ancestors: set<nat>, ws: seq<Json>)
    requires SlotsUnique(heap) && |items| == |ws|
    requires forall i | 0 <= i < |ws| :: Unfolds(heap, items[i], ws[i]) && Inside(heap, ancestors, ws[i])
    ensures PrintItems(heap, items, ancestors) == Some(EncodeItems(NormalItems(ws)))
    decreases ws, 1
  {
    if ws != [] {
      PrintsUnfolding(heap, items[0], ancestors, ws[0]);
      PrintsItems(heap, items[1..], ancestors, ws[1..]);
    }
  }

  lemma {:induction false} PrintsSlots(heap: Heap, slots: seq<Slot>, ancestors: set<nat>, ms: seq<Member>)
    requires SlotsUnique(heap) && |slots| == |ms|
    requires forall i | 0 <= i < |ms| ::
      slots[i].key == ms[i].key && Unfolds(heap, slots[i].value, ms[i].value) && Inside(heap, ancestors, ms[i].value)
    ensures PrintSlots(heap, slots, ancestors) == Some(CanonicalEntries(ms))
    decreases ms, 1
  {
    hide Normal, Encode, SlotsUnique, Inside;
    if ms != [] {
      PrintsUnfolding(heap, slots[0].value, ancestors, ms[0].value);
      PrintsSlots(heap, slots[1..], ancestors, ms[1..]);
    }
  }

  lemma {:induction false} PrintedUnfolds(heap: Heap, v: Value, ancestors: set<nat>) returns (w: Json)
    requires Print(heap, v, ancestors).Some?
    ensures Unfolds(heap, v, w)
    decreases |heap.Keys - ancestors|, 0, 0
  {
    match v {
      case Plain(s) =>
        w := s;
      case Ref(id) =>
        EnterShrinks(heap, ancestors, id);
        match heap[id] {
          case ArrayNode(items) =>
            var ws := PrintedItemsUnfold(heap, items, ancestors + {id});
            w := Arr(ws);
          case ObjectNode(slots) =>
            var ms := PrintedSlotsUnfold(heap, slots, ancestors + {id});
            w := Obj(ms);
        }
    }
  }

  lemma {:induction false} PrintedItemsUnfold(heap: Heap, items: seq<Value>, ancestors: set<nat>)
      returns (ws: seq<Json>)
    requires PrintItems(heap, items, ancestors).Some?
    ensures |ws| == |items| && forall i | 0 <= i < |ws| :: Unfolds(heap, items[i], ws[i])
    decreases |heap.Keys - ancestors|, 1, |items|
  {
    ws := [];
    if items != [] {
      var w := PrintedUnfolds(heap, items[0], ancestors);
      var rest := PrintedItemsUnfold(heap, items[1..], ancestors);
      ws := [w] + rest;
    }
  }

  lemma {:induction false} PrintedSlotsUnfold(heap: Heap, slots: seq<Slot>, ancestors: set<nat>)
      returns (ms: seq<Member>)
    requires PrintSlots(heap, slots, ancestors).Some?
    ensures |ms| == |slots|
    ensures forall i | 0 <= i < |ms| :: slots[i].key == ms[i].key && Unfolds(heap, slots[i].value, ms[i].value)
    decreases |heap.Keys - ancestors|, 1, |slots|
  {
    ms := [];
    if slots != [] {
      var w := PrintedUnfolds(heap, slots[0].value, ancestors);
      var rest := PrintedSlotsUnfold(heap, slots[1..], ancestors);
      ms := [Member(slots[0].key, w)] + rest;
    }
  }

  /** The printer accepts exactly the values that are finite JSON once references are followed
      (shared parts are fine, circular ones are not), and prints their canonical text. */
  lemma AcceptsExactlyFiniteJson(heap: Heap, v: Value, text: Text)
    requires SlotsUnique(heap)
    ensures Print(heap, v, {}) == Some(text) <==> exists w :: Unfolds(heap, v, w) && Canonical(w) == text
  {
    if Print(heap, v, {}) == Some(text) {
      var w := PrintedUnfolds(heap, v, {});
      PrintsUnfolding(heap, v, {}, w);
      assert Unfolds(heap, v, w) && Canonical(w) == text;
    }
    if exists w :: Unfolds(heap, v, w) && Canonical(w) == text {
      var w :| Unfolds(heap, v, w) && Canonical(w) == text;
      PrintsUnfolding(heap, v, {}, w);
    }
  }

  lemma {:induction false} UnfoldingKeysUnique(heap: Heap, v: Value, w: Json)
    requires SlotsUnique(heap) && Unfolds(heap, v, w)
    ensures KeysUnique(w)
    decreases w
  {
    match w {
      case Arr(ws) =>
        forall i | 0 <= i < |ws| ensures KeysUnique(ws[i]) {
          UnfoldingKeysUnique(heap, heap[v.id].items[i], ws[i]);
        }
      case Obj(ms) =>
        forall i | 0 <= i < |ms| ensures KeysUnique(ms[i].value) {
          UnfoldingKeysUnique(heap, heap[v.id].slots[i].value, ms[i].value);
        }
      case _ =>
    }
  }

  /** On finite JSON the three printers of the repository print one text. */
  lemma ThreePrintersAgree(heap: Heap, v: Value, w: Json)
    requires SlotsUnique(heap) && Unfolds(heap, v, w)
    ensures Print(heap, v, {}) == Some(AuditPrint(w)) && AuditPrint(w) == BenchmarkPrint(w)
  {
    PrintsUnfolding(heap, v, {}, w);
    UnfoldingKeysUnique(heap, v, w);
    AuditPrintIsCanonical(w);
    BenchmarkPrintIsCanonical(w);
  }

  /** A number that is not finite is where they part: two print null, the third refuses. */
  lemma PrintersPartOnNonFinite()
    ensures AuditPrint(NonFinite) == BenchmarkPrint(NonFinite) == NULL_TEXT
    ensures Print(map[], Plain(NonFinite), {}) == None
  {
  }
}
