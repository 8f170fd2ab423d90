/** The traversal as the code runs it: one loop over an explicit stack of at most two frames,
    where a pushed frame either filters one tag against everything later or walks the source of a
    move. */
module Traverse {
  import opened Tags
  import opened MetaLog
  import opened Compaction

  const DEPTH := 3

  const NOOP := Tag(0, 0, 0)

  /** A suspended traversal: what is left to walk, and the tag it was working on. */
  datatype Frame = Frame(items: seq<Item>, filtered: bool, range: Range, tag: Tag, item: Item)

  ghost predicate ValidFrame(f: Frame) {
    && ValidRange(f.range)
    && (f.filtered || f.range.shift == 0)
    && (f.tag.type3 == 0 || f.tag.type3 == ItemTag(f.item).type3)
  }

  ghost predicate AllAttrs(items: seq<Item>) {
    forall i | 0 <= i < |items| :: items[i].Attr?
  }

  /** What a frame still writes after the tag it is working on. */
  ghost function Rest(f: Frame): seq<Entry>
    requires ValidFrame(f)
  {
    if f.filtered then Compacted(f.items, f.range) else Plain(f.items)
  }

  /** What a frame writes for the tag it is working on, once that tag has become `tag`. */
  ghost function Current(f: Frame, tag: Tag): seq<Entry>
    requires ValidFrame(f)
  {
    if tag.type3 == 0 || (f.filtered && !(f.range.begin <= tag.id < f.range.end)) then []
    else if tag.id + f.range.shift < 0 then []
    else Written(f.item, tag.id + f.range.shift)
  }

  /** What the filter that walks `items` leaves of the tag a frame is working on. */
  ghost function Filtered(f: Frame, items: seq<Item>): seq<Entry>
    requires ValidFrame(f)
  {
    match Survive(f.tag, Visible(items))
    case None => []
    case Some(t) => Current(f, t)
  }

  /** The shapes the stack takes while tags are written: nothing suspended, or a move walking the
      attributes of its source. */
  ghost predicate Writing(f: Frame, stack: seq<Frame>) {
    && ValidFrame(f)
    && (stack == [] || (|stack| == 1 && ValidFrame(stack[0]) && stack[0].tag == NOOP))
    && (|stack| == 1 ==> f.filtered && AllAttrs(f.items) && (f.tag.type3 != 0 ==> f.item.Attr?))
  }

  /** While a filter runs, the topmost frame is the one whose tag is being filtered. */
  ghost predicate Filtering(items: seq<Item>, stack: seq<Frame>) {
    && 1 <= |stack| <= DEPTH - 1
    && Writing(stack[|stack| - 1], stack[..|stack| - 1])
    && stack[|stack| - 1].filtered
    && (|stack| == 2 ==> AllAttrs(items))
  }

  /** What is still written between two tags. */
  ghost function Between(f: Frame, stack: seq<Frame>): seq<Entry>
    requires Writing(f, stack)
  {
    if stack == [] then Rest(f) else Rest(f) + Rest(stack[0])
  }

  /** What is still written when a frame has a tag to write. */
  ghost function AtTag(f: Frame, stack: seq<Frame>): seq<Entry>
    requires Writing(f, stack)
  {
    Current(f, f.tag) + Between(f, stack)
  }

  /** What is still written while the tag of the topmost frame is being filtered. */
  ghost function InFilter(items: seq<Item>, stack: seq<Frame>): seq<Entry>
    requires Filtering(items, stack)
  {
    var top := |stack| - 1;
    Filtered(stack[top], items) + Between(stack[top], stack[..top])
  }

  lemma {:induction false} SurviveAppend(f: Tag, a: seq<Entry>, b: seq<Entry>)
    ensures Survive(f, a + b) == match Survive(f, a) { case None => None case Some(t) => Survive(t, b) }
    decreases |a|
  {
    if a == [] {
      assert a + b == b;
    } else {
      assert (a + b)[1..] == a[1..] + b;
      match FilterStep(f, a[0].tag)
      case None =>
      case Some(g) => SurviveAppend(g, a[1..], b);
    }
  }

  /** A filter that has walked past `it` and left the tag as `g` (a pseudo tag if dropped). */
  ghost predicate FilteredPast(f: Frame, it: Item, g: Tag) {
    match it
    case Attr(e) => g == (match FilterStep(f.tag, e.tag) case None => NOOP case Some(t) => t)
    case Users(id, attrs) =>
      g == (match Survive(f.tag, UserEntries(id, attrs)) case None => NOOP case Some(t) => t)
    case _ => g == f.tag
  }

  lemma FilterPast(f: Frame, it: Item, items: seq<Item>, g: Tag)
    requires ValidFrame(f) && FilteredPast(f, it, g)
    ensures g.type3 == 0 || g.type3 == f.tag.type3
    ensures Filtered(f, [it] + items) == Filtered(f.(tag := g), items)
  {
    assert Visible([it]) == match it
                            case Attr(e) => [e]
                            case Users(id, attrs) => UserEntries(id, attrs)
                            case _ => [];
    assert ([it] + items)[1..] == items;
    assert Visible([it] + items) == Visible([it]) + Visible(items);
    SurviveAppend(f.tag, Visible([it]), Visible(items));
    SurvivorIsTracked(f.tag, Visible([it]), NAME);
    SurvivorIsTracked(g, Visible(items), NAME);
  }

  /** Taking the next item off a filtered frame starts a filter, if its class is selected. */
  lemma TakeFiltered(f: Frame, stack: seq<Frame>, it: Item, items: seq<Item>)
    requires Writing(f, stack) && f.filtered && f.items == [it] + items && f.tag == NOOP
    ensures var g := Frame(items, true, f.range, ItemTag(it), it);
            if Selects(f.range, ItemTag(it).type3) then
              Filtering(items, stack + [g]) && InFilter(items, stack + [g]) == Between(f, stack)
            else
              Writing(g, stack) && Between(g, stack) == Between(f, stack)
  {
    var g := Frame(items, true, f.range, ItemTag(it), it);
    assert f.items[1..] == items && f.items[0] == it;
    assert (stack + [g])[..|stack|] == stack;
    SurvivorIsTracked(ItemTag(it), Visible(items), NAME);
    if Selects(f.range, ItemTag(it).type3) {
      assert CompactedHead(f.items, f.range) == Filtered(g, items);
    } else {
      assert CompactedHead(f.items, f.range) == [];
    }
  }

  lemma TakePlain(f: Frame, it: Item, items: seq<Item>)
    requires Writing(f, []) && !f.filtered && f.items == [it] + items
    ensures var g := Frame(items, false, f.range, ItemTag(it), it);
            Writing(g, []) && AtTag(g, []) == Between(f, [])
  {
    assert f.items[1..] == items;
  }

  /** Changing the tag of the topmost frame. */
  function Retag(stack: seq<Frame>, tag: Tag): seq<Frame>
    requires stack != []
  {
    stack[|stack| - 1 := stack[|stack| - 1].(tag := tag)]
  }

  lemma FilterOn(stack: seq<Frame>, it: Item, items: seq<Item>, g: Tag)
    requires Filtering([it] + items, stack)
    requires FilteredPast(stack[|stack| - 1], it, g)
    ensures Filtering(items, Retag(stack, g))
    ensures InFilter(items, Retag(stack, g)) == InFilter([it] + items, stack)
  {
    var top := |stack| - 1;
    assert Retag(stack, g)[..top] == stack[..top];
    FilterPast(stack[top], it, items, g);
    assert forall i | 0 <= i < |items| :: items[i] == ([it] + items)[i + 1];
  }

  /** A filter is over when it has walked everything or has dropped its tag. */
  lemma FilterDone(items: seq<Item>, stack: seq<Frame>)
    requires Filtering(items, stack) && (items == [] || stack[|stack| - 1].tag == NOOP)
    ensures var top := |stack| - 1;
            Writing(stack[top], stack[..top]) && AtTag(stack[top], stack[..top]) == InFilter(items, stack)
  {
    SurvivorIsTracked(stack[|stack| - 1].tag, Visible(items), NAME);
  }

  lemma MoveDone(f: Frame, stack: seq<Frame>)
    requires Writing(f, stack) && |stack| == 1 && f.items == []
    ensures Writing(stack[0], []) && AtTag(stack[0], []) == Between(f, stack)
  {
  }

  lemma MoveStarts(f: Frame)
    requires Writing(f, []) && f.item.Move? && f.tag.type3 == FROM_MOVE
    requires f.filtered ==> f.range.begin <= f.tag.id < f.range.end
    ensures var g := Frame(Wrap(f.item.src), true, MoveRange(f.item.from, f.tag.id + f.range.shift), NOOP, Noop);
            var h := Frame(f.items, f.filtered, f.range, NOOP, Noop);
            Writing(g, [h]) && Between(g, [h]) == AtTag(f, [])
  {
  }

  /** The user attribute list of one pending attribute, written out. */
  method WriteUsers(id: nat, attrs: seq<UserAttr>) returns (out: seq<Entry>)
    ensures out == UserEntries(id, attrs)
  {
    out := [];
    var i := 0;
    while i < |attrs|
      invariant i <= |attrs|
      invariant out + UserEntries(id, attrs[i..]) == UserEntries(id, attrs)
    {
      out := out + [Entry(Tag(USERATTR + attrs[i].kind, id, |attrs[i].data|), attrs[i].data)];
      i := i + 1;
    }
  }

  /** The same list met by a filter: it stops at the first tag that drops the filtered one. */
  method FilterUsers(f: Tag, id: nat, attrs: seq<UserAttr>) returns (g: Tag)
    ensures g == match Survive(f, UserEntries(id, attrs)) { case None => NOOP case Some(t) => t }
  {
    g := f;
    var i := 0;
    while i < |attrs|
      invariant i <= |attrs|
      invariant Survive(f, UserEntries(id, attrs)) == Survive(g, UserEntries(id, attrs[i..]))
    {
      var step := FilterStep(g, Tag(USERATTR + attrs[i].kind, id, |attrs[i].data|));
      if step == None {
        g := NOOP;
        return;
      }
      g := step.value;
      i := i + 1;
    }
  }

  /** The filter callback for one later item; moves are passed over. */
  method FilterItem(stack: seq<Frame>, item: Item, ghost items: seq<Item>)
    returns (filtered: seq<Frame>, dropped: bool)
    requires Filtering([item] + items, stack)
    ensures |filtered| == |stack|
    ensures forall i | 0 <= i < |stack| :: filtered[i].items == stack[i].items
    ensures Filtering(items, filtered) && InFilter(items, filtered) == InFilter([item] + items, stack)
    ensures dropped ==> filtered[|filtered| - 1].tag == NOOP
  {
    var g := stack[|stack| - 1].tag;
    dropped := false;
    match item {
      case Noop =>
      case Move(_, _, _) =>
      case Users(id, attrs) =>
        g := FilterUsers(g, id, attrs);
      case Attr(e) =>
        var step := FilterStep(g, e.tag);
        dropped := step == None;
        g := if dropped then NOOP else step.value;
    }
    FilterOn(stack, item, items, g);
    filtered := Retag(stack, g);
  }

  /** The write callback for one item, which is given its id after filtering and shifting. */
  method WriteItem(item: Item, id: nat) returns (out: seq<Entry>)
    requires !item.Move?
    ensures out == Written(item, id)
  {
    match item {
      case Noop => out := [];
      case Users(_, attrs) => out := WriteUsers(id, attrs);
      case Attr(e) => out := [Entry(e.tag.(id := id), e.data)];
    }
  }

  /** The local state of the loop: the current frame, the stack below it, whether the frame is a
      filter, and whether its tag has come back from the stack and is about to be written. */
  datatype State = State(f: Frame, stack: seq<Frame>, filtering: bool, popped: bool)

  ghost predicate Ok(s: State) {
    if s.filtering then
      !s.popped && !s.f.filtered && Filtering(s.f.items, s.stack)
    else
      Writing(s.f, s.stack) && (if s.popped then s.stack == [] || s.f.filtered else s.f.tag == NOOP)
  }

  ghost function Pending(s: State): seq<Entry>
    requires Ok(s)
  {
    if s.filtering then InFilter(s.f.items, s.stack)
    else if s.popped then AtTag(s.f, s.stack)
    else Between(s.f, s.stack)
  }

  /** How far the outermost frame, the frame of a move and the innermost filter have to go. */
  ghost function Outer(s: State): nat {
    if s.stack == [] then |s.f.items| else |s.stack[0].items|
  }

  ghost function Stage(s: State): nat {
    if |s.stack| == 1 && s.filtering then 4 else if s.stack != [] then 2
    else if !s.popped then 0 else if s.f.tag == NOOP then 1 else 3
  }

  ghost function Inner(s: State): nat {
    if s.stack == [] then 0 else if |s.stack| == 1 then |s.f.items| else |s.stack[1].items|
  }

  ghost function InnerStage(s: State): nat {
    if |s.stack| == 2 then 2 else if s.popped then 1 else 0
  }

  ghost predicate Closer(t: State, s: State) {
    || Outer(t) < Outer(s)
    || (Outer(t) == Outer(s)
        && (|| Stage(t) < Stage(s)
            || (Stage(t) == Stage(s)
                && (|| Inner(t) < Inner(s)
                    || (Inner(t) == Inner(s)
                        && (|| InnerStage(t) < InnerStage(s)
                            || (InnerStage(t) == InnerStage(s) && |t.f.items| < |s.f.items|)))))))
  }

  /** Takes the next item of the current frame: a filter looks at it, a filtered frame skips it or
      starts a filter for it, and an unfiltered frame goes on to write it. */
  method Take(s: State) returns (t: State, dropped: bool)
    requires Ok(s) && !s.popped && s.f.items != []
    ensures Ok(t) && Pending(t) == Pending(s) && Closer(t, s)
    ensures dropped ==> t.filtering && t.stack[|t.stack| - 1].tag == NOOP
    ensures t.popped ==> !t.f.filtered
  {
    var item, items := s.f.items[0], s.f.items[1..];
    var tag := ItemTag(item);
    assert s.f.items == [item] + items;
    dropped := false;
    if s.filtering {
      var stack, d := FilterItem(s.stack, item, items);
      t, dropped := s.(f := s.f.(items := items), stack := stack), d;
    } else if s.f.filtered {
      TakeFiltered(s.f, s.stack, item, items);
      if !Selects(s.f.range, tag.type3) {
        t := s.(f := s.f.(items := items));
      } else {
        t := State(Frame(items, false, Range(NAME, 0, 0, 0), NOOP, Noop),
                   s.stack + [Frame(items, true, s.f.range, tag, item)], true, false);
      }
    } else {
      TakePlain(s.f, item, items);
      t := s.(f := s.f.(items := items, tag := tag, item := item), popped := true);
    }
  }

  /** Writes the tag of the current frame, or starts to walk the source of a move. */
  method Put(s: State) returns (t: State, out: seq<Entry>)
    requires Ok(s) && s.popped
    ensures Ok(t) && !t.popped && out + Pending(t) == Pending(s) && Closer(t, s)
  {
    var f := s.f;
    var idle := f.(tag := NOOP, item := Noop);
    t, out := State(idle, s.stack, false, false), [];
    if f.filtered && !(f.range.begin <= f.tag.id < f.range.end) {
      return;
    }
    if f.tag.type3 == FROM_MOVE {
      MoveStarts(f);
      t := State(Frame(Wrap(f.item.src), true, MoveRange(f.item.from, f.tag.id + f.range.shift), NOOP, Noop),
                 [idle], false, false);
    } else if f.tag.type3 != 0 {
      out := WriteItem(f.item, f.tag.id + f.range.shift);
    }
  }

  /** Goes back to the frame below. */
  method Pop(s: State) returns (t: State)
    requires Ok(s) && !s.popped && s.stack != []
    requires s.f.items == [] || (s.filtering && s.stack[|s.stack| - 1].tag == NOOP)
    ensures Ok(t) && Pending(t) == Pending(s) && Closer(t, s)
  {
    var top := |s.stack| - 1;
    if s.filtering {
      FilterDone(s.f.items, s.stack);
    } else {
      MoveDone(s.f, s.stack);
    }
    t := State(s.stack[top], s.stack[..top], false, true);
  }

  lemma StackIsShallow(s: State)
    requires Ok(s)
    ensures |s.stack| < DEPTH && (s.filtering ==> !s.popped && s.stack != [])
  {
  }

  lemma Ends(s: State)
    requires Ok(s) && s.stack == [] && s.f.items == [] && !s.popped
    ensures Pending(s) == []
  {
  }

  /** Walks a log and its pending attributes, writing the tags that survive the filter, or every
      tag if `filtered` is off. The stack never holds more than two frames. */
  method Run(items: seq<Item>, filtered: bool, range: Range) returns (out: seq<Entry>, ghost deepest: nat)
    requires ValidRange(range) && (filtered || range.shift == 0)
    ensures out == if filtered then Compacted(items, range) else Plain(items)
    ensures deepest < DEPTH
  {
    hide Compacted, Plain, Ok, Pending, Outer, Stage, Inner, InnerStage;
    var s := State(Frame(items, filtered, range, NOOP, Noop), [], false, false);
    out, deepest := [], 0;
    Starts(items, filtered, range);
    while true
      invariant Ok(s) && out + Pending(s) == Rest(Frame(items, filtered, range, NOOP, Noop)) && deepest < DEPTH
      decreases Outer(s), Stage(s), Inner(s), InnerStage(s), |s.f.items|
    {
      var finished := false;
      if !s.popped {
        if s.f.items == [] {
          finished := true;
        } else {
          s, finished := Take(s);
        }
      }
      StackIsShallow(s);
      deepest := if deepest < |s.stack| then |s.stack| else deepest;
      if s.popped {
        var written;
        s, written := Put(s);
        out := out + written;
      }
      if finished {
        if s.stack == [] {
          Ends(s);
          return;
        }
        s := Pop(s);
      }
    }
  }

  lemma Starts(items: seq<Item>, filtered: bool, range: Range)
    requires ValidRange(range) && (filtered || range.shift == 0)
    ensures var s := State(Frame(items, filtered, range, NOOP, Noop), [], false, false);
            Ok(s) && Pending(s) == Rest(s.f)
  {
  }
}
