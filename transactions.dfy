/**
 * The recorded output events of txBufferingHandler.cpp (`txOutputTransaction`
 * and its subclasses) and the output-handler interface they are recorded from
 * and replayed to (`txAXMLEventHandler`).
 */
module Transactions {
  import opened Xpcom

  /**
   * One recorded output event. The constructors follow the source's
   * `txTransactionType` enumeration one to one; each carries the payload of
   * the subclass the source allocates for that type. A character transaction
   * stores only the length of its text: the text itself lives in the result
   * buffer's shared string.
   */
  datatype Transaction =
    | AttributeTransaction(prefix: Atom, localName: string, nsID: Int32, value: string)
    | AttributeAtomTransaction(prefix: Atom, localNameAtom: Atom, lowercaseLocalNameAtom: Atom,
                               nsID: Int32, value: string)
    | CharacterTransaction(length: nat)
    | CharacterNoOETransaction(length: nat)
    | CommentTransaction(value: string)
    | EndDocumentTransaction
    | EndElementTransaction
    | PITransaction(target: string, data: string)
    | StartDocumentTransaction
    | StartElementAtomTransaction(prefix: Atom, localNameAtom: Atom, lowercaseLocalNameAtom: Atom,
                                  nsID: Int32)
    | StartElementTransaction(prefix: Atom, localName: string, nsID: Int32)
  {
    predicate IsCharacter() {
      CharacterTransaction? || CharacterNoOETransaction?
    }
  }

  /**
   * One call of the output-handler interface, with its arguments. The
   * buffering handler receives these from the XSLT processor and replay
   * issues them to the real handler. `doe` is "disable output escaping".
   */
  datatype Event =
    | Attribute(prefix: Atom, localName: string, nsID: Int32, value: string)
    | AttributeAtom(prefix: Atom, localNameAtom: Atom, lowercaseLocalNameAtom: Atom,
                    nsID: Int32, value: string)
    | Characters(data: string, doe: bool)
    | Comment(data: string)
    | EndDocument(result: Status)
    | EndElement
    | ProcessingInstruction(target: string, data: string)
    | StartDocument
    | StartElementAtom(prefix: Atom, localNameAtom: Atom, lowercaseLocalNameAtom: Atom, nsID: Int32)
    | StartElement(prefix: Atom, localName: string, nsID: Int32)
  {
    predicate IsAttribute() {
      Attribute? || AttributeAtom?
    }
  }

  /** The transaction type `characters(aData, aDOE)` records or merges into. */
  predicate IsCharacterOfType(t: Transaction, doe: bool) {
    if doe then t.CharacterNoOETransaction? else t.CharacterTransaction?
  }

  function CharacterTransactionOf(doe: bool, length: nat): (t: Transaction)
    ensures IsCharacterOfType(t, doe) && t.length == length
  {
    if doe then CharacterNoOETransaction(length) else CharacterTransaction(length)
  }

  /**
   * The transaction each buffering method other than `characters` allocates
   * for its call. `endDocument` keeps none of its arguments.
   */
  function Recorded(e: Event): (t: Transaction)
    requires !e.Characters?
    ensures !t.IsCharacter()
  {
    match e
    case Attribute(p, l, ns, v) => AttributeTransaction(p, l, ns, v)
    case AttributeAtom(p, l, ll, ns, v) => AttributeAtomTransaction(p, l, ll, ns, v)
    case Comment(d) => CommentTransaction(d)
    case EndDocument(_) => EndDocumentTransaction
    case EndElement => EndElementTransaction
    case ProcessingInstruction(tg, d) => PITransaction(tg, d)
    case StartDocument => StartDocumentTransaction
    case StartElementAtom(p, l, ll, ns) => StartElementAtomTransaction(p, l, ll, ns)
    case StartElement(p, l, ns) => StartElementTransaction(p, l, ns)
  }

  /** How far a transaction moves the replay cursor through the shared string. */
  function TextLength(t: Transaction): nat {
    if t.IsCharacter() then t.length else 0
  }

  /** The summed lengths of the character transactions of `ts`. */
  function CharLength(ts: seq<Transaction>): nat {
    if ts == [] then 0 else CharLength(ts[..|ts| - 1]) + TextLength(ts[|ts| - 1])
  }

  lemma CharLengthAppend(ts: seq<Transaction>, t: Transaction)
    ensures CharLength(ts + [t]) == CharLength(ts) + TextLength(t)
  {
    assert (ts + [t])[..|ts|] == ts;
  }

  /** The character length of a prefix never exceeds that of the whole log. */
  lemma {:induction false} CharLengthPrefix(ts: seq<Transaction>, k: nat)
    requires k <= |ts|
    ensures CharLength(ts[..k]) <= CharLength(ts)
    decreases |ts|
  {
    if k < |ts| {
      var init := ts[..|ts| - 1];
      assert init[..k] == ts[..k];
      CharLengthPrefix(init, k);
    } else {
      assert ts[..k] == ts;
    }
  }

  /** Replacing one transaction changes the character length by the difference of the two. */
  lemma {:induction false} CharLengthUpdate(ts: seq<Transaction>, i: nat, t: Transaction)
    requires i < |ts|
    ensures CharLength(ts[i := t]) + TextLength(ts[i]) == CharLength(ts) + TextLength(t)
    decreases |ts|
  {
    var n := |ts| - 1;
    if i < n {
      assert ts[i := t][..n] == ts[..n][i := t];
      CharLengthUpdate(ts[..n], i, t);
    } else {
      assert ts[i := t][..n] == ts[..n];
    }
  }
}
