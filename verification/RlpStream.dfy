/** `RLPStream`: a writer that announces how many items a list will have and patches the list's header in
    when the last of them has arrived. */
module RlpStream {
  import opened Bytes
  import opened Rlp

  /** An open list: items still due, and where its payload starts. */
  datatype Frame = Frame(due: nat, start: nat)

  datatype State = State(out: ByteString, stack: seq<Frame>)

  /** Every open list is due something and starts within the output. */
  ghost predicate WellFormed(s: State) {
    && (forall i :: 0 <= i < |s.stack| ==> s.stack[i].due > 0 && s.stack[i].start <= |s.out|)
    && (forall i, j :: 0 <= i < j < |s.stack| ==> s.stack[i].start <= s.stack[j].start)
  }

  /** The output, with a header for each open list and n bytes more, stays within the size limit. */
  ghost predicate Room(s: State, n: nat) {
    |s.out| + n + 9 * |s.stack| < LIMIT
  }

  /** The top list with its header patched in. */
  function Close(s: State): State
    requires s.stack != [] && s.stack[|s.stack| - 1].start <= |s.out| < LIMIT
  {
    var p := s.stack[|s.stack| - 1].start;
    State(s.out[..p] + Header(0xc0, |s.out| - p) + s.out[p..], s.stack[..|s.stack| - 1])
  }

  lemma HeaderSizeBound(n: nat)
    requires n < LIMIT
    ensures 1 <= HeaderSize(n) <= 9
  {
    LimitFits(n);
  }

  lemma CloseKeeps(s: State)
    requires WellFormed(s) && Room(s, 0) && s.stack != []
    ensures WellFormed(Close(s)) && Room(Close(s), 0)
  {
    HeaderSizeBound(|s.out| - s.stack[|s.stack| - 1].start);
  }

  /** The stream after `count` items have been added to the output; nothing when there were too many. */
  ghost function Note(s: State, count: nat): (r: Result<State>)
    requires WellFormed(s) && Room(s, 0)
    ensures r.Ok? ==> WellFormed(r.value) && Room(r.value, 0)
    decreases |s.stack|
  {
    if count == 0 || s.stack == [] then Ok(s)
    else
      var f := s.stack[|s.stack| - 1];
      if f.due < count then Throw(ItemCountTooLarge)
      else if f.due > count then Ok(s.(stack := s.stack[..|s.stack| - 1] + [f.(due := f.due - count)]))
      else
        CloseKeeps(s);
        Note(Close(s), 1)
  }

  lemma NoteNone(s: State)
    requires WellFormed(s) && Room(s, 0)
    ensures Note(s, 0) == Ok(s)
  {
  }

  /** The top list takes the items, refuses them, or is completed by them and counts as one itself. */
  lemma NoteIs(s: State, count: nat)
    requires WellFormed(s) && Room(s, 0) && count > 0
    ensures s.stack == [] ==> Note(s, count) == Ok(s)
    ensures s.stack != [] ==>
              var f := s.stack[|s.stack| - 1];
              && (f.due < count ==> Note(s, count) == Throw(ItemCountTooLarge))
              && (f.due > count ==>
                    var t := s.(stack := s.stack[..|s.stack| - 1] + [f.(due := f.due - count)]);
                    WellFormed(t) && Note(s, count) == Ok(t))
              && f.start <= |s.out| < LIMIT
              && (f.due == count ==>
                    && WellFormed(Close(s)) && Room(Close(s), 0) && |Close(s).stack| < |s.stack|
                    && Note(s, count) == Note(Close(s), 1))
  {
    hide Header; hide HeaderSize;
    if s.stack != [] {
      CloseKeeps(s);
    }
  }

  /** Adding bytes that count as one item. */
  ghost function AddItem(s: State, bytes: ByteString): Result<State>
    requires WellFormed(s) && Room(s, |bytes|)
  {
    Note(s.(out := s.out + bytes), 1)
  }

  // Integers in place

  lemma Assoc(a: ByteString, b: ByteString, c: ByteString)
    ensures a + b + c == a + (b + c)
  {
  }

  /** `bytesRequired`. */
  method BytesRequired(n: nat) returns (i: nat)
    ensures i == |BigEndian(n)|
  {
    hide High; hide Low;
    i := 0;
    var m := n;
    while m != 0
      invariant i + |BigEndian(m)| == |BigEndian(n)|
      decreases m
    {
      i := i + 1;
      m := High(m);
    }
  }

  /** Writes n backwards, low byte first, into the places up to `end`. */
  method WriteBack(buf: ByteString, end: nat, n: nat) returns (r: ByteString)
    requires |BigEndian(n)| <= end <= |buf|
    ensures r == buf[..end - |BigEndian(n)|] + BigEndian(n) + buf[end..]
  {
    hide High; hide Low;
    r := buf;
    var m, b := n, end;
    ghost var done: ByteString := [];
    while m != 0
      invariant |r| == |buf| && b == end - |done| && BigEndian(n) == BigEndian(m) + done
      invariant r == buf[..b] + done + buf[end..]
      decreases m
    {
      b := b - 1;
      r := r[b := Low(m)];
      done := [Low(m)] + done;
      m := High(m);
    }
  }

  /** One byte of room in front of the payload takes a short header. */
  lemma PatchedShort(out: ByteString, p: nat, s: nat, buf: ByteString)
    requires p <= |out| && s < IMMEDIATE && buf == (out[..p] + seq(1, _ => 0) + out[p..])[p := 0xc0 + s]
    ensures buf == out[..p] + Header(0xc0, s) + out[p..]
  {
  }

  /** More room takes a long one: its first byte, and the length written backwards from its end. */
  lemma PatchedLong(out: ByteString, p: nat, s: nat, be: ByteString, buf: ByteString)
    requires p <= |out| && IMMEDIATE <= s < LIMIT && be == BigEndian(s) && |be| <= 8
    requires var b := (out[..p] + seq(1 + |be|, _ => 0) + out[p..])[p := 0xf7 + |be|];
             buf == b[..p + 1] + be + b[p + 1 + |be|..]
    ensures buf == out[..p] + Header(0xc0, s) + out[p..]
  {
    hide BigEndian;
    var b := (out[..p] + seq(1 + |be|, _ => 0) + out[p..])[p := 0xf7 + |be|];
    assert b[..p + 1] == out[..p] + [0xf7 + |be|];
    assert b[p + 1 + |be|..] == out[p..];
  }

  class RLPStream {
    var out: ByteString
    var stack: seq<Frame>

    ghost function View(): State
      reads this
    {
      State(out, stack)
    }

    ghost predicate Valid()
      reads this
    {
      WellFormed(View())
    }

    constructor ()
      ensures Valid() && View() == State([], [])
    {
      out, stack := [], [];
    }

    /** `noteAppended`: closes every list that is now complete. */
    method NoteAppended(itemCount: nat) returns (ok: bool)
      requires Valid() && Room(View(), 0)
      modifies this
      ensures Valid()
      ensures ok == old(Note(View(), itemCount)).Ok?
      ensures View() == if ok then old(Note(View(), itemCount)).value else old(View())
    {
      hide Header; hide HeaderSize; hide Close; hide Note; hide WellFormed; hide Room;
      ghost var want := Note(View(), itemCount);
      var count := itemCount;
      if count == 0 {
        NoteNone(View());
        return true;
      }
      while stack != []
        invariant Valid() && Room(View(), 0) && count > 0
        invariant Note(View(), count) == want && (want.Ok? || View() == old(View()))
        decreases |stack|
      {
        NoteIs(View(), count);
        var f := stack[|stack| - 1];
        if f.due < count {
          return false;
        }
        if f.due > count {
          stack := stack[..|stack| - 1] + [f.(due := f.due - count)];
          return true;
        }
        NeverTooMany(Close(View()));
        CloseTop();
        count := 1;
      }
      NoteIs(View(), count);
      ok := true;
    }

    /** Makes room for the header, moves the payload up and writes the header in front of it. */
    method CloseTop()
      requires Valid() && Room(View(), 0) && stack != []
      modifies this
      ensures View() == old(Close(View()))
    {
      var p := stack[|stack| - 1].start;
      stack := stack[..|stack| - 1];
      var os := |out|;
      var s := os - p;
      LimitFits(s);
      var brs := BytesRequired(s);
      var encodeSize := if s < IMMEDIATE then 1 else 1 + brs;
      var buf := out[..p] + seq(encodeSize, _ => 0) + out[p..];
      hide BigEndian;
      if s < IMMEDIATE {
        buf := buf[p := 0xc0 + s];
        PatchedShort(out, p, s, buf);
      } else {
        buf := buf[p := 0xf7 + brs];
        buf := WriteBack(buf, p + 1 + brs, s);
        PatchedLong(out, p, s, BigEndian(s), buf);
      }
      out := buf;
    }

    /** One item more is never too many. */
    method NoteOne()
      requires Valid() && Room(View(), 0)
      modifies this
      ensures Valid() && Ok(View()) == old(Note(View(), 1))
    {
      NeverTooMany(View());
      var _ := NoteAppended(1);
    }

    /** Appends pre-serialised bytes that stand for `itemCount` items. */
    method AppendRaw(bytes: ByteString, itemCount: nat) returns (ok: bool)
      requires Valid() && Room(View(), |bytes|)
      modifies this
      ensures Valid()
      ensures var want := old(Note(View().(out := View().out + bytes), itemCount));
              ok == want.Ok? && View() == if ok then want.value else old(View()).(out := old(out) + bytes)
    {
      out := out + bytes;
      ok := NoteAppended(itemCount);
    }

    /** `pushInt`: the bytes of n, written backwards into zeros. */
    method PushInt(n: nat, br: nat)
      requires br == |BigEndian(n)|
      modifies this`out
      ensures out == old(out) + BigEndian(n)
    {
      out := out + seq(br, _ => 0);
      out := WriteBack(out, |out|, n);
    }

    method PushCount(count: nat, base: byte)
      requires base == 0xb7 || base == 0xf7
      requires count < LIMIT
      modifies this`out
      ensures out == old(out) + [base + |BigEndian(count)|] + BigEndian(count)
    {
      LimitFits(count);
      var br := BytesRequired(count);
      out := out + [base + br];
      PushInt(count, br);
    }

    /** The header of a byte string. */
    method PushHeader(size: nat)
      requires size < LIMIT
      modifies this`out
      ensures out == old(out) + Header(0x80, size)
    {
      hide BigEndian;
      if size < IMMEDIATE {
        out := out + [size + 0x80];
      } else {
        PushCount(size, 0xb7);
      }
    }

    /** `append` of a byte string adds its encoding as one item. */
    method Append(d: ByteString)
      requires Valid() && Room(View(), |d| + 9)
      modifies this
      ensures Valid() && Ok(View()) == old(AddItem(View(), EncodeData(d)))
    {
      hide Note; hide Header; hide HeaderSize;
      if |d| == 1 && d[0] < 0x80 {
        out := out + d;
      } else {
        PushHeader(|d|);
        Assoc(old(out), Header(0x80, |d|), d);
        out := out + d;
      }
      NoteOne();
    }

    /** `append` of an integer is that of its minimal big-endian bytes. */
    method AppendInt(i: nat)
      requires Valid() && Room(View(), |BigEndian(i)| + 9)
      modifies this
      ensures Valid() && Ok(View()) == old(AddItem(View(), EncodeData(BigEndian(i))))
    {
      hide Note; hide BigEndian;
      ghost var be := BigEndian(i);
      SmallInt(i);
      if i == 0 {
        out := out + [0x80];
      } else if i < 0x80 {
        out := out + [i];
      } else {
        var br := BytesRequired(i);
        if br < IMMEDIATE {
          out := out + [br + 0x80];
        } else {
          LimitFits(br);
          var brbr := BytesRequired(br);
          out := out + [0xb7 + brbr];
          PushInt(br, brbr);
        }
        assert out == old(out) + Header(0x80, |be|);
        PushInt(i, br);
      }
      assert out == old(out) + EncodeData(be);
      NoteOne();
    }

    /** `appendList`: announces a list; an empty one is complete at once. */
    method AppendList(items: nat)
      requires Valid() && Room(View(), 9)
      modifies this
      ensures Valid()
      ensures items > 0 ==> View() == old(View()).(stack := old(stack) + [Frame(items, |old(out)|)])
      ensures items == 0 ==> Ok(View()) == old(AddItem(View(), [0xc0]))
    {
      if items > 0 {
        stack := stack + [Frame(items, |out|)];
      } else {
        out := out + [0xc0];
        NoteOne();
      }
    }

    /** Appends a nested value: lists are announced, then filled. This adds the value's encoding as one
        item, whatever lists are open around it. */
    method AppendItem(i: Item)
      requires Valid() && Room(View(), Volume(i))
      modifies this
      ensures Valid() && Fits(i) && ItemSize(i) <= Volume(i)
      ensures Ok(View()) == old(AddItem(View(), Encode(i)))
      decreases i
    {
      VolumeFits(i);
      match i {
        case Data(d) =>
          Append(d);
        case List(xs) =>
          ghost var s := View();
          AppendList(|xs|);
          FilledNone(s, xs);
          for j := 0 to |xs|
            invariant Valid() && Ok(View()) == Filled(s, xs, j)
          {
            FilledStep(s, xs, j);
            AppendItem(xs[j]);
          }
      }
    }

    /** `out()`: throws while a list is open. */
    method Out() returns (r: Result<ByteString>)
      ensures r == if stack == [] then Ok(out) else Throw(ListStackNotEmpty)
    {
      if stack != [] {
        return Throw(ListStackNotEmpty);
      }
      r := Ok(out);
    }
  }

  lemma SmallInt(i: nat)
    ensures i == 0 ==> BigEndian(i) == []
    ensures 0 < i < 0x80 ==> BigEndian(i) == [i]
    ensures i >= 0x80 ==> !(|BigEndian(i)| == 1 && BigEndian(i)[0] < 0x80)
  {
    if 0 < i < 256 {
      assert BigEndian(High(i)) == [];
    } else if i != 0 {
      assert BigEndian(High(i)) != [];
    }
  }

  // Nested values

  /** A bound on the size of a value's encoding that leaves room for every header on the way. */
  ghost function Volume(i: Item): nat {
    match i
    case Data(d) => |d| + 9
    case List(xs) => 9 + VolumeAll(xs)
  }

  ghost function VolumeAll(xs: seq<Item>): nat {
    if xs == [] then 0 else Volume(xs[0]) + VolumeAll(xs[1..])
  }

  lemma {:induction false} VolumeFits(i: Item)
    requires Volume(i) < LIMIT
    ensures Fits(i) && ItemSize(i) <= Volume(i)
    decreases i, 1
  {
    match i
    case Data(d) => HeaderSizeBound(|d|);
    case List(xs) =>
      VolumeAllFits(xs);
      HeaderSizeBound(ItemsSize(xs));
  }

  lemma {:induction false} VolumeAllFits(xs: seq<Item>)
    requires VolumeAll(xs) < LIMIT
    ensures AllFit(xs) && ItemsSize(xs) <= VolumeAll(xs)
    decreases xs, 0
  {
    if xs != [] {
      VolumeFits(xs[0]);
      VolumeAllFits(xs[1..]);
      assert xs == [xs[0]] + xs[1..];
    }
  }

  /** The stream s with a list announced and the first j of its items delivered. */
  ghost function Filled(s: State, xs: seq<Item>, j: nat): Result<State>
    requires WellFormed(s) && Room(s, Volume(List(xs))) && j <= |xs|
  {
    VolumeFits(List(xs));
    if j < |xs| then Ok(State(s.out + EncodeAll(xs[..j]), s.stack + [Frame(|xs| - j, |s.out|)]))
    else AddItem(s, Encode(List(xs)))
  }

  lemma {:induction false} EncodeAllSnoc(xs: seq<Item>, j: nat)
    requires AllFit(xs) && j < |xs|
    ensures EncodeAll(xs[..j + 1]) == EncodeAll(xs[..j]) + Encode(xs[j])
  {
    hide Header; hide HeaderSize; hide Fits;
    if j == 0 {
      assert xs[..1] == [xs[0]] && xs[..0] == [] && xs[..1][1..] == [];
    } else {
      EncodeAllSnoc(xs[1..], j - 1);
      assert xs[..j + 1][1..] == xs[1..][..j] && xs[..j][1..] == xs[1..][..j - 1];
    }
  }

  lemma {:induction false} VolumeSnoc(xs: seq<Item>, j: nat)
    requires j < |xs|
    ensures VolumeAll(xs[..j]) + Volume(xs[j]) <= VolumeAll(xs)
  {
    if j == 0 {
      assert xs[..0] == [];
    } else {
      VolumeSnoc(xs[1..], j - 1);
      assert xs[..j][1..] == xs[1..][..j - 1];
    }
  }

  lemma ListCloses(s: State, xs: seq<Item>, u: State)
    requires Fits(List(xs)) && |s.out| + ItemsSize(xs) < LIMIT
    requires u == State(s.out + EncodeAll(xs), s.stack + [Frame(1, |s.out|)])
    ensures Close(u) == State(s.out + Encode(List(xs)), s.stack)
  {
    assert u.out[|s.out|..] == EncodeAll(xs) && u.out[..|s.out|] == s.out && u.stack[..|s.stack|] == s.stack;
  }

  /** Between items there is room for the next. */
  lemma FilledRoom(s: State, xs: seq<Item>, j: nat)
    requires WellFormed(s) && Room(s, Volume(List(xs))) && j < |xs|
    ensures var t := Filled(s, xs, j).value;
            WellFormed(t) && Room(t, Volume(xs[j])) && Fits(xs[j]) && ItemSize(xs[j]) <= Volume(xs[j])
  {
    hide Header; hide HeaderSize;
    VolumeFits(List(xs));
    VolumeSnoc(xs, j);
    VolumeAllFits(xs[..j]);
    VolumeFits(xs[j]);
  }

  /** Each item takes the list one further. */
  lemma FilledStep(s: State, xs: seq<Item>, j: nat)
    requires WellFormed(s) && Room(s, Volume(List(xs))) && j < |xs|
    ensures var t := Filled(s, xs, j).value;
            && WellFormed(t) && Room(t, Volume(xs[j])) && Fits(xs[j]) && ItemSize(xs[j]) <= Volume(xs[j])
            && AddItem(t, Encode(xs[j])) == Filled(s, xs, j + 1)
  {
    hide Header; hide HeaderSize; hide Fits; hide Volume; hide VolumeAll;
    FilledRoom(s, xs, j);
    VolumeFits(List(xs));
    EncodeAllSnoc(xs, j);
    var t := Filled(s, xs, j).value;
    Assoc(s.out, EncodeAll(xs[..j]), Encode(xs[j]));
    var u := State(s.out + EncodeAll(xs[..j + 1]), s.stack + [Frame(|xs| - j, |s.out|)]);
    assert t.(out := t.out + Encode(xs[j])) == u;
    assert u.stack[..|s.stack|] == s.stack;
    if j + 1 == |xs| {
      assert xs[..j + 1] == xs;
      ListCloses(s, xs, u);
    }
  }

  /** Announcing the list is the first stage; an empty one is complete with that. */
  lemma FilledNone(s: State, xs: seq<Item>)
    requires WellFormed(s) && Room(s, Volume(List(xs)))
    ensures xs != [] ==> Filled(s, xs, 0) == Ok(State(s.out, s.stack + [Frame(|xs|, |s.out|)]))
    ensures xs == [] ==> Filled(s, xs, 0) == AddItem(s, [0xc0])
  {
    if xs == [] {
      assert Encode(List(xs)) == [0xc0];
    } else {
      assert xs[..0] == [] && s.out + [] == s.out;
    }
  }

  /** After the first list, one item at a time completes the next: never too many. */
  lemma {:induction false} NeverTooMany(s: State)
    requires WellFormed(s) && Room(s, 0)
    ensures Note(s, 1).Ok?
    decreases |s.stack|
  {
    if s.stack != [] && s.stack[|s.stack| - 1].due == 1 {
      CloseKeeps(s);
      NeverTooMany(Close(s));
    }
  }

  // Promises

  /** What a caller streams: a byte string, or the announcement of a list. */
  datatype Token = Datum(bytes: ByteString) | Begin(items: nat)

  ghost function Weight(t: Token): nat {
    if t.Datum? then |t.bytes| + 9 else 9
  }

  ghost function TotalWeight(ts: seq<Token>): nat {
    if ts == [] then 0 else TotalWeight(ts[..|ts| - 1]) + Weight(ts[|ts| - 1])
  }

  /** The output with room set aside for the headers of the open lists. */
  ghost function Extent(s: State): nat {
    |s.out| + 9 * |s.stack|
  }

  /** Closing lists uses no more than the room set aside. */
  lemma {:induction false} NoteExtent(s: State, count: nat)
    requires WellFormed(s) && Room(s, 0) && Note(s, count).Ok?
    ensures Extent(Note(s, count).value) <= Extent(s)
    decreases |s.stack|
  {
    hide Header; hide HeaderSize;
    if count != 0 && s.stack != [] && s.stack[|s.stack| - 1].due == count {
      CloseKeeps(s);
      NoteExtent(Close(s), 1);
    }
  }

  ghost function Feed(s: State, t: Token): (r: Result<State>)
    requires WellFormed(s) && Room(s, Weight(t))
    ensures r.Ok? ==> WellFormed(r.value) && Extent(r.value) <= Extent(s) + Weight(t)
  {
    var bytes := if t.Datum? then EncodeData(t.bytes) else [0xc0];
    if t.Begin? && t.items > 0 then Ok(s.(stack := s.stack + [Frame(t.items, |s.out|)]))
    else
      var u := s.(out := s.out + bytes);
      NeverTooMany(u);
      NoteExtent(u, 1);
      AddItem(s, bytes)
  }

  /** What the tokens make of an empty stream. */
  ghost function FeedAll(ts: seq<Token>): (r: Result<State>)
    requires TotalWeight(ts) < LIMIT
    ensures r.Ok? ==> WellFormed(r.value) && Extent(r.value) <= TotalWeight(ts)
  {
    if ts == [] then Ok(State([], []))
    else
      var s :- FeedAll(ts[..|ts| - 1]);
      Feed(s, ts[|ts| - 1])
  }

  /** Items still promised after a stream of tokens that is to be one value. */
  ghost function Promised(ts: seq<Token>): int {
    if ts == [] then 1
    else Promised(ts[..|ts| - 1]) - 1 + (if ts[|ts| - 1].Begin? then ts[|ts| - 1].items else 0)
  }

  ghost function TotalDue(stack: seq<Frame>): nat {
    if stack == [] then 0 else TotalDue(stack[..|stack| - 1]) + stack[|stack| - 1].due
  }

  /** Items owed to the open lists, not counting the lists themselves: each is one item of the next. */
  ghost function Owed(stack: seq<Frame>): int {
    if stack == [] then 0 else TotalDue(stack) - |stack| + 1
  }

  lemma TotalDuePush(stack: seq<Frame>, f: Frame)
    ensures TotalDue(stack + [f]) == TotalDue(stack) + f.due
  {
    assert (stack + [f])[..|stack|] == stack;
  }

  /** Something is owed exactly as long as a list is open. */
  lemma {:induction false} OwedPositive(stack: seq<Frame>)
    requires forall i :: 0 <= i < |stack| ==> stack[i].due > 0
    ensures TotalDue(stack) >= |stack| && (Owed(stack) == 0 <==> stack == [])
  {
    if stack != [] {
      OwedPositive(stack[..|stack| - 1]);
    }
  }

  /** A completed item pays exactly one, however many lists it closes. */
  lemma {:induction false} NotePays(s: State)
    requires WellFormed(s) && Room(s, 0) && s.stack != []
    ensures Note(s, 1).Ok? && Owed(Note(s, 1).value.stack) == Owed(s.stack) - 1
    decreases |s.stack|
  {
    hide Header; hide HeaderSize;
    NeverTooMany(s);
    var init, f := s.stack[..|s.stack| - 1], s.stack[|s.stack| - 1];
    if f.due > 1 {
      TotalDuePush(init, f.(due := f.due - 1));
    } else {
      CloseKeeps(s);
      if init != [] {
        NotePays(Close(s));
      }
    }
  }

  lemma FeedPays(s: State, t: Token)
    requires WellFormed(s) && Room(s, Weight(t))
    ensures Feed(s, t).Ok?
    ensures var owed := if s.stack == [] then 1 else Owed(s.stack);
            Owed(Feed(s, t).value.stack) == owed - 1 + (if t.Begin? then t.items else 0)
  {
    if t.Begin? && t.items > 0 {
      TotalDuePush(s.stack, Frame(t.items, |s.out|));
    } else {
      var u := s.(out := s.out + if t.Datum? then EncodeData(t.bytes) else [0xc0]);
      if s.stack != [] {
        NotePays(u);
      }
    }
  }

  /** For a stream that is to be one value, the list stack is empty exactly when every promised item has
      been delivered; until then `out()` throws. */
  lemma {:induction false} Delivered(ts: seq<Token>)
    requires ts != [] && TotalWeight(ts) < LIMIT && forall j :: 0 <= j < |ts| ==> Promised(ts[..j]) > 0
    ensures FeedAll(ts).Ok? && Owed(FeedAll(ts).value.stack) == Promised(ts)
    ensures FeedAll(ts).value.stack == [] <==> Promised(ts) == 0
  {
    var init, t := ts[..|ts| - 1], ts[|ts| - 1];
    assert Promised(init) > 0;
    if init != [] {
      forall j | 0 <= j < |init|
        ensures Promised(init[..j]) > 0
      {
        assert init[..j] == ts[..j];
      }
      Delivered(init);
    }
    FeedPays(FeedAll(init).value, t);
    OwedPositive(FeedAll(ts).value.stack);
  }

  /** Room for a token is room for all the tokens. */
  lemma {:induction false} FeedRoom(ts: seq<Token>, j: nat)
    requires j < |ts| && TotalWeight(ts) < LIMIT
    ensures TotalWeight(ts[..j]) + Weight(ts[j]) == TotalWeight(ts[..j + 1]) <= TotalWeight(ts)
    decreases |ts| - j
  {
    assert ts[..j + 1][..j] == ts[..j];
    if j + 1 < |ts| {
      FeedRoom(ts, j + 1);
    } else {
      assert ts[..j + 1] == ts;
    }
  }

  /** Streams the tokens. Of one value, `out()` gives the bytes when every promised item has been delivered, and
      throws exactly until then; of several, it throws exactly while the last is incomplete. */
  method StreamTokens(ts: seq<Token>) returns (r: Result<ByteString>)
    requires TotalWeight(ts) < LIMIT
    ensures FeedAll(ts).Ok?
    ensures r == if FeedAll(ts).value.stack == [] then Ok(FeedAll(ts).value.out) else Throw(ListStackNotEmpty)
    ensures ts != [] && (forall j :: 0 <= j < |ts| ==> Promised(ts[..j]) > 0) ==> (r.Throw? <==> Promised(ts) > 0)
  {
    hide Header; hide HeaderSize; hide Note;
    var s := new RLPStream();
    for j := 0 to |ts|
      invariant s.Valid() && TotalWeight(ts[..j]) < LIMIT && Ok(s.View()) == FeedAll(ts[..j])
    {
      FeedRoom(ts, j);
      assert ts[..j + 1][..j] == ts[..j];
      match ts[j]
      case Datum(d) => s.Append(d);
      case Begin(items) => s.AppendList(items);
    }
    assert ts[..|ts|] == ts;
    if ts != [] && forall j :: 0 <= j < |ts| ==> Promised(ts[..j]) > 0 {
      Delivered(ts);
      OwedPositive(s.stack);
    }
    r := s.Out();
  }
}
