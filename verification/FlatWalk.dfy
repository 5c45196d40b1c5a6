/** The loop shared by the two NBT writers: it walks the preorder array with a stack of remaining
    child counts. What is written for a tag, and for the end of a container, is a parameter. */
module FlatWalk {
  import opened Bytes
  import opened Wrappers
  import opened NbtTree

  /** An open container and the number of children still to come. */
  datatype Entry = Entry(tag: Tag, left: int)

  /** `open` writes a tag below the given parent at the given depth, `close` the end of a container,
      `count` is the member a writer takes the number of children from. */
  datatype Emitter<!T> = Emitter(
    open: (Option<Entry>, nat, Tag) -> seq<T>,
    close: (Tag, nat) -> seq<T>,
    count: Tag -> int)

  function Top(stack: seq<Entry>): Entry
    requires stack != []
  {
    stack[|stack| - 1]
  }

  function Front(stack: seq<Entry>): seq<Entry>
    requires stack != []
  {
    stack[..|stack| - 1]
  }

  function Parent(stack: seq<Entry>): Option<Entry> {
    if stack == [] then None else Some(Top(stack))
  }

  /** One child less to come in the innermost container. */
  function Taken(stack: seq<Entry>): (r: seq<Entry>)
    ensures |r| == |stack|
  {
    if stack == [] then [] else Front(stack) + [Top(stack).(left := Top(stack).left - 1)]
  }

  /** The stack once a tag has been written; a container that finds the stack full is not pushed. */
  function Entered<T>(em: Emitter<T>, stack: seq<Entry>, tag: Tag): seq<Entry> {
    if IsContainer(tag.typ) && |stack| < MAX_DEPTH then Taken(stack) + [Entry(tag, em.count(tag))] else Taken(stack)
  }

  /** The closing loop: containers with no child left are popped. */
  function Closing(stack: seq<Entry>): seq<Entry> {
    if stack == [] || Top(stack).left != 0 then stack else Closing(Front(stack))
  }

  function ClosingText<T>(em: Emitter<T>, stack: seq<Entry>): seq<T> {
    if stack == [] || Top(stack).left != 0 then []
    else em.close(Top(stack).tag, |stack| - 1) + ClosingText(em, Front(stack))
  }

  /** All that is written from a state of the walk. */
  function Walk<T>(em: Emitter<T>, tags: seq<Tag>, stack: seq<Entry>): seq<T> {
    if tags == [] then []
    else
      var entered := Entered(em, stack, tags[0]);
      em.open(Parent(stack), |stack|, tags[0]) + ClosingText(em, entered) + Walk(em, tags[1..], Closing(entered))
  }

  /** Whether the walk meets a container when the stack is full. */
  predicate Overflows<T>(em: Emitter<T>, tags: seq<Tag>, stack: seq<Entry>) {
    tags != [] &&
    ((IsContainer(tags[0].typ) && |stack| >= MAX_DEPTH)
     || Overflows(em, tags[1..], Closing(Entered(em, stack, tags[0]))))
  }

  /** Trees whose counts, as the emitter reads them, are the numbers of children. */
  predicate Counted<T>(em: Emitter<T>, t: Tree) {
    && (if IsContainer(t.tag.typ) then em.count(t.tag) == |t.kids| else t.kids == [])
    && forall i :: 0 <= i < |t.kids| ==> Counted(em, t.kids[i])
  }

  /** What should be written for a tree: head, children, end. */
  function Render<T>(em: Emitter<T>, t: Tree, parent: Option<Entry>, depth: nat): seq<T> {
    em.open(parent, depth, t.tag) +
    if IsContainer(t.tag.typ)
    then Renders(em, t.kids, Entry(t.tag, |t.kids|), depth + 1) + em.close(t.tag, depth)
    else []
  }

  function Renders<T>(em: Emitter<T>, ts: seq<Tree>, parent: Entry, depth: nat): seq<T> {
    if ts == [] then []
    else Render(em, ts[0], Some(parent), depth) + Renders(em, ts[1..], parent.(left := parent.left - 1), depth)
  }

  /** The walk over the flat form of a tree writes the tree, closes what the tree completes, and goes
      on with what follows. */
  lemma {:induction false} WalksTree<T>(em: Emitter<T>, t: Tree, rest: seq<Tag>, stack: seq<Entry>)
    requires Counted(em, t) && |stack| + Height(t) <= MAX_DEPTH
    ensures var after := Taken(stack);
            && Walk(em, Flat(t) + rest, stack)
                 == Render(em, t, Parent(stack), |stack|) + (ClosingText(em, after) + Walk(em, rest, Closing(after)))
            && Overflows(em, Flat(t) + rest, stack) == Overflows(em, rest, Closing(after))
    decreases t, 1
  {
    hide Walk, Overflows, Closing, ClosingText, Render, Renders;
    var tags, entered := Flat(t) + rest, Entered(em, stack, t.tag);
    assert tags[1..] == Flats(t.kids) + rest;
    WalkStep(em, tags, stack);
    RenderStep(em, t, Parent(stack), |stack|);
    if IsContainer(t.tag.typ) {
      if t.kids == [] {
        assert tags[1..] == rest;
        ClosesTop(em, Taken(stack), Entry(t.tag, 0));
      } else {
        StaysOpen(em, entered);
        WalksKids(em, t.kids, rest, Taken(stack), t.tag);
      }
    } else {
      assert tags[1..] == rest;
    }
  }

  lemma {:induction false} WalksKids<T>(em: Emitter<T>, ts: seq<Tree>, rest: seq<Tag>, below: seq<Entry>, tag: Tag)
    requires ts != [] && (forall i :: 0 <= i < |ts| ==> Counted(em, ts[i]))
    requires |below| + 1 + Heights(ts) <= MAX_DEPTH
    ensures var stack := below + [Entry(tag, |ts|)];
            && Walk(em, Flats(ts) + rest, stack)
                 == Renders(em, ts, Entry(tag, |ts|), |below| + 1)
                    + (em.close(tag, |below|) + (ClosingText(em, below) + Walk(em, rest, Closing(below))))
            && Overflows(em, Flats(ts) + rest, stack) == Overflows(em, rest, Closing(below))
    decreases ts, 0
  {
    hide Walk, Overflows, Closing, ClosingText, Render, Renders, Flat, Counted, Taken, Parent;
    var stack, t, ts' := below + [Entry(tag, |ts|)], ts[0], ts[1..];
    Assoc(Flat(t), Flats(ts'), rest);
    WalksTree(em, t, Flats(ts') + rest, stack);
    RendersStep(em, ts, Entry(tag, |ts|), |below| + 1);
    TakesKid(below, tag, |ts|);
    if ts' == [] {
      assert Flats(ts') + rest == rest;
      ClosesTop(em, below, Entry(tag, 0));
      RendersStep(em, ts', Entry(tag, 0), |below| + 1);
    } else {
      StaysOpen(em, Taken(stack));
      WalksKids(em, ts', rest, below, tag);
      Assoc(Render(em, t, Some(Entry(tag, |ts|)), |below| + 1), Renders(em, ts', Entry(tag, |ts'|), |below| + 1),
            em.close(tag, |below|) + (ClosingText(em, below) + Walk(em, rest, Closing(below))));
    }
  }

  lemma {:induction false} TakesKid(below: seq<Entry>, tag: Tag, n: int)
    ensures Taken(below + [Entry(tag, n)]) == below + [Entry(tag, n - 1)]
    ensures Parent(below + [Entry(tag, n)]) == Some(Entry(tag, n))
  {
  }

  lemma {:induction false} WalkStep<T>(em: Emitter<T>, tags: seq<Tag>, stack: seq<Entry>)
    ensures tags == [] ==> Walk(em, tags, stack) == [] && !Overflows(em, tags, stack)
    ensures tags != [] ==>
            var entered := Entered(em, stack, tags[0]);
            && Walk(em, tags, stack)
                 == em.open(Parent(stack), |stack|, tags[0]) + (ClosingText(em, entered) + Walk(em, tags[1..], Closing(entered)))
            && Overflows(em, tags, stack)
                 == ((IsContainer(tags[0].typ) && |stack| >= MAX_DEPTH) || Overflows(em, tags[1..], Closing(entered)))
  {
  }

  lemma {:induction false} RenderStep<T>(em: Emitter<T>, t: Tree, parent: Option<Entry>, depth: nat)
    ensures Render(em, t, parent, depth) ==
            em.open(parent, depth, t.tag) +
            if IsContainer(t.tag.typ)
            then Renders(em, t.kids, Entry(t.tag, |t.kids|), depth + 1) + em.close(t.tag, depth)
            else []
    ensures t.kids == [] ==> Renders(em, t.kids, Entry(t.tag, |t.kids|), depth + 1) == []
  {
  }

  lemma {:induction false} RendersStep<T>(em: Emitter<T>, ts: seq<Tree>, parent: Entry, depth: nat)
    ensures Renders(em, ts, parent, depth) ==
            if ts == [] then []
            else Render(em, ts[0], Some(parent), depth) + Renders(em, ts[1..], parent.(left := parent.left - 1), depth)
  {
  }

  lemma {:induction false} ClosesTop<T>(em: Emitter<T>, below: seq<Entry>, e: Entry)
    requires e.left == 0
    ensures Closing(below + [e]) == Closing(below)
    ensures ClosingText(em, below + [e]) == em.close(e.tag, |below|) + ClosingText(em, below)
  {
    assert Front(below + [e]) == below;
  }

  lemma {:induction false} StaysOpen<T>(em: Emitter<T>, stack: seq<Entry>)
    requires stack != [] && Top(stack).left != 0
    ensures Closing(stack) == stack && ClosingText(em, stack) == []
  {
  }

  /** The whole walk over the flat form of a tree writes exactly the tree. */
  lemma {:induction false} WalkRenders<T>(em: Emitter<T>, t: Tree)
    requires Counted(em, t) && Height(t) <= MAX_DEPTH
    ensures Walk(em, Flat(t), []) == Render(em, t, None, 0)
    ensures !Overflows(em, Flat(t), [])
  {
    WalksTree(em, t, [], []);
    assert Flat(t) + [] == Flat(t);
  }
}
