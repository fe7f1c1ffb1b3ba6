/**
 Touch contacts: up to 256 sources, each with at most one live contact, whose events go
 to the input queue under an id of their own.
 */
module TouchContacts {
  import opened Basics
  import opened InputPacket
  import opened InputQueue

  /** Every phase but these two is a move. */
  const DOWN: Int32 := 0
  const UP: Int32 := 3
  const SOURCES := 256

  /** How many ids there are: all words but 0. */
  const IDS := 0xFFFF_FFFF

  /** A touch event together with the source it came from. */
  datatype Contact = Contact(source: nat, phase: Int32, x: Int32, y: Int32, id: Word, time: Time)

  /** The live id of each source (0 for none), the next id, and everything handed to the queue. */
  datatype State = State(ids: seq<Word>, next: Word, stream: seq<Contact>)

  // ----- what a legal stream is

  /** The id of the contact a source has open after `stream`, 0 for none. */
  function OpenId(stream: seq<Contact>, source: nat): Word {
    if stream == [] then 0
    else
      var c := stream[|stream| - 1];
      if c.source != source then OpenId(stream[..|stream| - 1], source)
      else if c.phase == UP then 0
      else c.id
  }

  /** How many contacts were begun. */
  function Downs(stream: seq<Contact>): nat {
    if stream == [] then 0 else Downs(stream[..|stream| - 1]) + if stream[|stream| - 1].phase == DOWN then 1 else 0
  }

  /** The id of contact number `k`: 1, 2 and so on up to 2^32 - 1, then from 1 again. */
  function IdOf(k: nat): (id: Word)
    ensures id != 0
  {
    k % IDS + 1
  }

  /** A DOWN starts a contact of an idle source under the next id; all else belongs to the open contact. */
  predicate Follows(stream: seq<Contact>, c: Contact) {
    if c.phase == DOWN then OpenId(stream, c.source) == 0 && c.id == IdOf(Downs(stream))
    else c.id != 0 && OpenId(stream, c.source) == c.id
  }

  ghost predicate Legal(stream: seq<Contact>) {
    forall i :: 0 <= i < |stream| ==> Follows(stream[..i], stream[i])
  }

  // ----- the steps

  /** Sends one event of the live contact of `source`, and forgets the contact on UP. */
  function Sent(st: State, source: nat, phase: Int32, x: Int32, y: Int32, time: Time): State
    requires source < |st.ids|
  {
    st.(stream := st.stream + [Contact(source, phase, x, y, st.ids[source], time)],
        ids := if phase == UP then Replaced(st.ids, source, 0) else st.ids)
  }

  function Successor(id: Word): Word {
    (id + 1) % 0x1_0000_0000
  }

  /** The next id that is not 0. */
  function NewId(next: Word): Word {
    if next == 0 then Successor(next) else next
  }

  function Began(st: State, source: nat): State
    requires source < |st.ids|
  {
    State(Replaced(st.ids, source, NewId(st.next)), Successor(NewId(st.next)), st.stream)
  }

  /** One call; `early` is the time of the UP that closes an earlier contact. */
  function Pushed1(st: State, source: int, phase: Int32, x: Int32, y: Int32, early: Time, time: Time): State
    requires |st.ids| == SOURCES
  {
    if !(0 <= source < SOURCES) then st
    else
      var closed := if phase == DOWN && st.ids[source] != 0 then Sent(st, source, UP, x, y, early) else st;
      var ready := if phase == DOWN then Began(closed, source) else closed;
      if ready.ids[source] == 0 then ready else Sent(ready, source, phase, x, y, time)
  }

  /** What holds after any calls. */
  ghost predicate Inv(st: State) {
    && |st.ids| == SOURCES && Legal(st.stream)
    && (forall s :: 0 <= s < SOURCES ==> st.ids[s] == OpenId(st.stream, s))
    && NewId(st.next) == IdOf(Downs(st.stream))
  }

  lemma LegalAppend(stream: seq<Contact>, c: Contact)
    requires Legal(stream) && Follows(stream, c)
    ensures Legal(stream + [c])
  {
    hide Follows;
    var stream' := stream + [c];
    forall i | 0 <= i < |stream'|
      ensures Follows(stream'[..i], stream'[i])
    {
      if i < |stream| {
        assert stream'[..i] == stream[..i];
      } else {
        assert stream'[..i] == stream;
      }
    }
  }

  lemma AppendUnfolds(stream: seq<Contact>, c: Contact, s: nat)
    ensures OpenId(stream + [c], s) == if c.source != s then OpenId(stream, s) else if c.phase == UP then 0 else c.id
    ensures Downs(stream + [c]) == Downs(stream) + if c.phase == DOWN then 1 else 0
  {
    assert (stream + [c])[..|stream|] == stream;
  }

  /** An event of a live contact other than its first. */
  lemma SentInv(st: State, source: nat, phase: Int32, x: Int32, y: Int32, time: Time)
    requires Inv(st) && source < SOURCES && st.ids[source] != 0 && phase != DOWN
    ensures Inv(Sent(st, source, phase, x, y, time))
  {
    var c := Contact(source, phase, x, y, st.ids[source], time);
    LegalAppend(st.stream, c);
    forall s: nat
      ensures OpenId(st.stream + [c], s)
           == if c.source != s then OpenId(st.stream, s) else if c.phase == UP then 0 else c.id
      ensures Downs(st.stream + [c]) == Downs(st.stream)
    {
      AppendUnfolds(st.stream, c, s);
    }
    hide Legal, OpenId, Downs, IdOf, NewId;
  }

  lemma NextId(k: nat, next: Word)
    requires NewId(next) == IdOf(k)
    ensures NewId(Successor(NewId(next))) == IdOf(k + 1)
  {
  }

  /** The first event of a contact. */
  lemma BeganInv(st: State, source: nat, x: Int32, y: Int32, time: Time)
    requires Inv(st) && source < SOURCES && st.ids[source] == 0
    ensures Inv(Sent(Began(st, source), source, DOWN, x, y, time))
  {
    var c := Contact(source, DOWN, x, y, NewId(st.next), time);
    LegalAppend(st.stream, c);
    NextId(Downs(st.stream), st.next);
    forall s: nat
      ensures OpenId(st.stream + [c], s) == if c.source != s then OpenId(st.stream, s) else c.id
      ensures Downs(st.stream + [c]) == Downs(st.stream) + 1
    {
      AppendUnfolds(st.stream, c, s);
    }
    hide Legal, OpenId, Downs, IdOf, NewId;
  }

  /** Every call keeps the stream legal and the table of ids in step with it. */
  lemma PushedInv(st: State, source: int, phase: Int32, x: Int32, y: Int32, early: Time, time: Time)
    requires Inv(st)
    ensures Inv(Pushed1(st, source, phase, x, y, early, time))
  {
    if 0 <= source < SOURCES {
      hide Legal, OpenId, Downs, IdOf, NewId;
      if phase == DOWN {
        var closed := if st.ids[source] != 0 then Sent(st, source, UP, x, y, early) else st;
        if st.ids[source] != 0 {
          SentInv(st, source, UP, x, y, early);
        }
        BeganInv(closed, source, x, y, time);
        NewIdNonzero(closed.next);
      } else if st.ids[source] != 0 {
        SentInv(st, source, phase, x, y, time);
      }
    }
  }

  lemma NewIdNonzero(next: Word)
    ensures NewId(next) != 0
  {
  }

  // ----- what follows for streams

  /** The events of one contact: a DOWN, then others under the same id, with an UP only at the end. */
  ghost predicate OneContact(events: seq<Contact>) {
    && |events| > 0 && events[0].phase == DOWN && events[0].id != 0
    && (forall k :: 1 <= k < |events| ==> events[k].phase != DOWN && events[k].id == events[0].id)
    && (forall k :: 0 <= k < |events| - 1 ==> events[k].phase != UP)
  }

  function Of(stream: seq<Contact>, source: nat): seq<Contact> {
    if stream == [] then []
    else
      var c := stream[|stream| - 1];
      Of(stream[..|stream| - 1], source) + if c.source == source then [c] else []
  }

  function Joined(groups: seq<seq<Contact>>): seq<Contact> {
    if groups == [] then [] else Joined(groups[..|groups| - 1]) + groups[|groups| - 1]
  }

  /** A cut into contacts; only the last one may still be open, under the id `open`. */
  ghost predicate Cut(groups: seq<seq<Contact>>, open: Word) {
    && (forall g :: 0 <= g < |groups| ==> OneContact(groups[g]))
    && (forall g :: 0 <= g < |groups| - 1 ==> groups[g][|groups[g]| - 1].phase == UP)
    && (if open == 0 then |groups| == 0 || Closed(groups[|groups| - 1])
        else |groups| > 0 && !Closed(groups[|groups| - 1]) && groups[|groups| - 1][0].id == open)
  }

  predicate Closed(group: seq<Contact>) {
    |group| > 0 && group[|group| - 1].phase == UP
  }

  lemma CutBegin(groups: seq<seq<Contact>>, c: Contact)
    requires Cut(groups, 0) && c.phase == DOWN && c.id != 0
    ensures Cut(groups + [[c]], c.id) && Joined(groups + [[c]]) == Joined(groups) + [c]
  {
    assert (groups + [[c]])[..|groups|] == groups;
    assert OneContact([c]);
  }

  lemma CutExtend(groups: seq<seq<Contact>>, c: Contact)
    requires c.id != 0 && Cut(groups, c.id) && c.phase != DOWN
    ensures var last := groups[|groups| - 1] + [c];
            var groups' := groups[..|groups| - 1] + [last];
            Cut(groups', if c.phase == UP then 0 else c.id) && Joined(groups') == Joined(groups) + [c]
  {
    var last := groups[|groups| - 1] + [c];
    var groups' := groups[..|groups| - 1] + [last];
    assert groups'[..|groups'| - 1] == groups[..|groups| - 1];
    assert OneContact(last);
  }

  /** The events of each source are whole contacts one after the other, and at most one open contact at the end. */
  lemma {:induction false} SourceGrammar(stream: seq<Contact>, source: nat) returns (groups: seq<seq<Contact>>)
    requires Legal(stream)
    ensures Cut(groups, OpenId(stream, source)) && Joined(groups) == Of(stream, source)
  {
    if stream == [] {
      return [];
    }
    var before, c := stream[..|stream| - 1], stream[|stream| - 1];
    LegalBefore(stream);
    groups := SourceGrammar(before, source);
    if c.source == source {
      hide Legal, Cut, Joined, Downs, IdOf;
      if c.phase == DOWN {
        CutBegin(groups, c);
        groups := groups + [[c]];
      } else {
        CutExtend(groups, c);
        groups := groups[..|groups| - 1] + [groups[|groups| - 1] + [c]];
      }
    }
  }

  lemma LegalBefore(stream: seq<Contact>)
    requires Legal(stream) && stream != []
    ensures Legal(stream[..|stream| - 1]) && Follows(stream[..|stream| - 1], stream[|stream| - 1])
  {
    hide Follows;
    var before := stream[..|stream| - 1];
    forall i | 0 <= i < |before|
      ensures Follows(before[..i], before[i])
    {
      assert before[..i] == stream[..i];
    }
  }

  lemma {:induction false} DownsMonotone(stream: seq<Contact>, i: nat)
    requires i <= |stream|
    ensures Downs(stream[..i]) <= Downs(stream)
  {
    if i < |stream| {
      DownsMonotone(stream[..|stream| - 1], i);
      assert stream[..|stream| - 1][..i] == stream[..i];
    } else {
      assert stream[..i] == stream;
    }
  }

  /** An open contact began with some DOWN of its source, whose number gives its id. */
  lemma {:induction false} OpenBegan(stream: seq<Contact>, source: nat) returns (i: nat)
    requires Legal(stream) && OpenId(stream, source) != 0
    ensures i < |stream| && stream[i].source == source && stream[i].phase == DOWN
    ensures stream[i].id == OpenId(stream, source) == IdOf(Downs(stream[..i]))
    decreases |stream|
  {
    var before, c := stream[..|stream| - 1], stream[|stream| - 1];
    LegalBefore(stream);
    if c.source == source && c.phase == DOWN {
      return |stream| - 1;
    }
    i := OpenBegan(before, source);
    assert before[..i] == stream[..i] && before[i] == stream[i];
  }

  /** Numbers with the same id are a multiple of 2^32 - 1 apart. */
  lemma SameIdFarApart(a: nat, b: nat)
    requires IdOf(a) == IdOf(b) && a < b
    ensures b - a >= IDS
  {
  }

  lemma {:induction false} DownsBetween(stream: seq<Contact>, i: nat, j: nat)
    requires i < j < |stream| && stream[i].phase == DOWN
    ensures Downs(stream[..i]) < Downs(stream[..j])
  {
    var s := stream[..j];
    DownsMonotone(s, i + 1);
    assert s[..i + 1] == stream[..i + 1];
    assert stream[..i + 1][..i] == stream[..i];
  }

  /**
   Two sources with a live contact under the same id: at least 2^32 - 1 contacts began
   from the older of the two on. Any shorter run keeps live ids apart.
   */
  lemma SharedIdIsOld(stream: seq<Contact>, s: nat, t: nat) returns (i: nat, j: nat)
    requires Legal(stream) && s != t && OpenId(stream, s) == OpenId(stream, t) != 0
    ensures i < |stream| && j < |stream| && {stream[i].source, stream[j].source} == {s, t}
    ensures stream[i].phase == DOWN && stream[j].phase == DOWN
    ensures stream[i].id == stream[j].id == OpenId(stream, s)
    ensures Downs(stream[..j]) - Downs(stream[..i]) >= IDS
  {
    i := OpenBegan(stream, s);
    j := OpenBegan(stream, t);
    hide IdOf, Downs, OpenId, Legal;
    if i > j {
      i, j := j, i;
    }
    DownsBetween(stream, i, j);
    SameIdFarApart(Downs(stream[..i]), Downs(stream[..j]));
  }

  lemma LiveIdsApart(stream: seq<Contact>, s: nat, t: nat)
    requires Legal(stream) && s != t && OpenId(stream, s) != 0 && Downs(stream) < IDS
    ensures OpenId(stream, s) != OpenId(stream, t)
  {
    if OpenId(stream, s) == OpenId(stream, t) {
      var i, j := SharedIdIsOld(stream, s, t);
      DownsMonotone(stream, j);
    }
  }

  // ----- whole runs

  datatype Call = Call(source: int, phase: Int32, x: Int32, y: Int32, early: Time, time: Time)

  function Run(calls: seq<Call>): (st: State)
    ensures |st.ids| == SOURCES
  {
    if calls == [] then State(seq(SOURCES, _ => 0), 1, [])
    else
      var c := calls[|calls| - 1];
      Pushed1(Run(calls[..|calls| - 1]), c.source, c.phase, c.x, c.y, c.early, c.time)
  }

  lemma {:induction false} RunInv(calls: seq<Call>)
    ensures Inv(Run(calls))
  {
    if calls != [] {
      var c := calls[|calls| - 1];
      var before := Run(calls[..|calls| - 1]);
      RunInv(calls[..|calls| - 1]);
      hide Inv, Pushed1;
      PushedInv(before, c.source, c.phase, c.x, c.y, c.early, c.time);
    } else {
      assert IdOf(0) == 1;
    }
  }

  /**
   After any calls: two sources with a live contact under the same id, but only if at
   least 2^32 - 1 contacts began from the older of the two on.
   */
  lemma RunSharedIdIsOld(calls: seq<Call>, s: nat, t: nat) returns (i: nat, j: nat)
    requires s < SOURCES && t < SOURCES && s != t && Run(calls).ids[s] == Run(calls).ids[t] != 0
    ensures var stream := Run(calls).stream;
            && i < |stream| && j < |stream| && stream[i].phase == DOWN && stream[j].phase == DOWN
            && {stream[i].source, stream[j].source} == {s, t} && stream[i].id == stream[j].id == Run(calls).ids[s]
            && Downs(stream[..j]) - Downs(stream[..i]) >= IDS
  {
    RunInv(calls);
    hide Run, Legal, Downs;
    i, j := SharedIdIsOld(Run(calls).stream, s, t);
  }

  // ----- what each call adds

  /** A touch event as its source sees it, without the id. */
  datatype Felt = Felt(phase: Int32, x: Int32, y: Int32, time: Time)

  /** The calls of one source. */
  function CallsOf(calls: seq<Call>, source: nat): seq<Call> {
    if calls == [] then []
    else
      var c := calls[|calls| - 1];
      CallsOf(calls[..|calls| - 1], source) + if c.source == source then [c] else []
  }

  /** Whether a source has a contact after these calls of its own: since its last DOWN there was no UP. */
  predicate Touching(own: seq<Call>) {
    if own == [] then false
    else
      var phase := own[|own| - 1].phase;
      phase == 0 || (phase != 3 && Touching(own[..|own| - 1]))
  }

  /** What the game is to be told after these calls of one source. */
  function Told(own: seq<Call>): seq<Felt> {
    if own == [] then []
    else
      var before, c := own[..|own| - 1], own[|own| - 1];
      Told(before)
      + (if c.phase == 0 && Touching(before) then [Felt(3, c.x, c.y, c.early)] else [])
      + (if c.phase == 0 || Touching(before) then [Felt(c.phase, c.x, c.y, c.time)] else [])
  }

  function Feel(stream: seq<Contact>): seq<Felt> {
    seq(|stream|, i requires 0 <= i < |stream| => Felt(stream[i].phase, stream[i].x, stream[i].y, stream[i].time))
  }

  lemma FeelAppend(stream: seq<Contact>, c: Contact)
    ensures Feel(stream + [c]) == Feel(stream) + [Felt(c.phase, c.x, c.y, c.time)]
    ensures Feel(stream + []) == Feel(stream) && Feel([]) == []
  {
  }

  lemma OfAppend(stream: seq<Contact>, c: Contact, source: nat)
    ensures Of(stream + [c], source) == Of(stream, source) + if c.source == source then [c] else []
  {
    assert (stream + [c])[..|stream|] == stream;
  }

  /** One more event of `of`, as source `s` sees it. */
  lemma FeltNext(stream: seq<Contact>, c: Contact, s: nat)
    ensures Feel(Of(stream + [c], s))
         == Feel(Of(stream, s)) + if c.source == s then [Felt(c.phase, c.x, c.y, c.time)] else []
  {
    OfAppend(stream, c, s);
    FeelAppend(Of(stream, s), c);
  }

  /**
   What one call adds: nothing for a source that does not exist or is idle, unless it is a
   DOWN; one event under the live id for any other phase; and for a DOWN one event under a
   fresh id, after an UP under the old one exactly if the source was live.
   */
  lemma CallAdds(st: State, source: int, phase: Int32, x: Int32, y: Int32, early: Time, time: Time)
    requires |st.ids| == 256
    ensures var t := Pushed1(st, source, phase, x, y, early, time);
            if !(0 <= source < 256) || (phase != 0 && st.ids[source] == 0) then t == st
            else if phase != 0 then
              && t.stream == st.stream + [Contact(source, phase, x, y, st.ids[source], time)]
              && t.next == st.next && t.ids == st.ids[source := if phase == 3 then 0 else st.ids[source]]
            else
              var id := if st.next == 0 then 1 else st.next;
              && t.stream == st.stream
                             + (if st.ids[source] != 0 then [Contact(source, 3, x, y, st.ids[source], early)] else [])
                             + [Contact(source, 0, x, y, id, time)]
              && t.next == (id + 1) % 0x1_0000_0000 && t.ids == st.ids[source := id]
  {
    if 0 <= source < 256 && phase == 0 {
      assert NewId(st.next) == if st.next == 0 then 1 else st.next;
      assert st.ids[source := 0][source := NewId(st.next)] == st.ids[source := NewId(st.next)];
      assert st.stream + [] == st.stream;
    }
  }

  /** The game is told of each source exactly what follows from the calls of that source, in their order. */
  lemma {:induction false} RunTells(calls: seq<Call>, s: nat)
    requires s < 256
    ensures Feel(Of(Run(calls).stream, s)) == Told(CallsOf(calls, s))
    ensures Run(calls).ids[s] != 0 <==> Touching(CallsOf(calls, s))
  {
    if calls == [] {
    } else {
      hide Run, Told, CallsOf, Touching, Feel, Of;
      var before, c := calls[..|calls| - 1], calls[|calls| - 1];
      RunTells(before, s);
      RunNext(calls);
      OwnNext(calls, s);
      CallFelt(Run(before), c, s);
    }
  }

  lemma RunNext(calls: seq<Call>)
    requires calls != []
    ensures var c := calls[|calls| - 1];
            Run(calls) == Pushed1(Run(calls[..|calls| - 1]), c.source, c.phase, c.x, c.y, c.early, c.time)
  {
    hide Pushed1;
  }

  lemma OwnNext(calls: seq<Call>, s: nat)
    requires calls != []
    ensures var before, c := calls[..|calls| - 1], calls[|calls| - 1];
            var own := CallsOf(before, s);
            && CallsOf(calls, s) == (if c.source == s then own + [c] else own)
            && Touching(own + [c]) == (c.phase == 0 || (c.phase != 3 && Touching(own)))
            && Told(own + [c]) == Told(own)
                                  + (if c.phase == 0 && Touching(own) then [Felt(3, c.x, c.y, c.early)] else [])
                                  + (if c.phase == 0 || Touching(own) then [Felt(c.phase, c.x, c.y, c.time)] else [])
  {
    var before, c := calls[..|calls| - 1], calls[|calls| - 1];
    var own := CallsOf(before, s);
    assert (own + [c])[..|own|] == own;
  }

  /** The events one call adds, as source `s` sees them, and whether `s` then has a contact. */
  lemma CallFelt(st: State, c: Call, s: nat)
    requires |st.ids| == 256 && s < 256
    ensures var t := Pushed1(st, c.source, c.phase, c.x, c.y, c.early, c.time);
            && |t.ids| == 256
            && (c.source != s ==> Feel(Of(t.stream, s)) == Feel(Of(st.stream, s)) && t.ids[s] == st.ids[s])
            && (c.source == s ==>
                  && (t.ids[s] != 0) == (c.phase == 0 || (c.phase != 3 && st.ids[s] != 0))
                  && Feel(Of(t.stream, s)) == Feel(Of(st.stream, s))
                       + (if c.phase == 0 && st.ids[s] != 0 then [Felt(3, c.x, c.y, c.early)] else [])
                       + (if c.phase == 0 || st.ids[s] != 0 then [Felt(c.phase, c.x, c.y, c.time)] else []))
  {
    hide Pushed1, Of, Feel;
    CallAdds(st, c.source, c.phase, c.x, c.y, c.early, c.time);
    var t := Pushed1(st, c.source, c.phase, c.x, c.y, c.early, c.time);
    if 0 <= c.source < 256 && (c.phase == 0 || st.ids[c.source] != 0) {
      var last := t.stream[|t.stream| - 1];
      if c.phase == 0 && st.ids[c.source] != 0 {
        var up := Contact(c.source, 3, c.x, c.y, st.ids[c.source], c.early);
        FeltNext(st.stream, up, s);
        FeltNext(st.stream + [up], last, s);
      } else {
        assert t.stream == st.stream + [last];
        FeltNext(st.stream, last, s);
      }
    }
  }

  // ----- the code

  class Touches {
    const ids: array<Word>
    var next: Word
    const queue: Queue

    /** Everything handed to the queue so far. */
    ghost var stream: seq<Contact>

    ghost predicate Valid()
      reads this, queue
    {
      ids.Length == SOURCES && queue.Valid()
    }

    ghost function St(): State
      reads this, ids
    {
      State(ids[..], next, stream)
    }

    constructor (queue: Queue)
      requires queue.Valid()
      ensures Valid() && Inv(St()) && stream == [] && this.queue == queue && fresh(ids)
    {
      ids := new Word[SOURCES](_ => 0);
      next := 1;
      this.queue := queue;
      stream := [];
      new;
      assert IdOf(0) == 1;
    }

    /** A new contact: the next id that is not 0. */
    method Begin(source: nat)
      requires Valid() && source < SOURCES
      modifies this`next, ids
      ensures St() == Began(old(St()), source)
    {
      var id := next;
      next := Successor(next);
      if id == 0 {
        id := next;
        next := Successor(next);
      }
      ids[source] := id;
      assert ids[..] == Replaced(old(ids[..]), source, id);
    }

    /** Builds and queues the event. */
    method Send(source: nat, phase: Int32, x: Int32, y: Int32, time: Time)
      requires Valid() && source < SOURCES
      modifies this`stream, ids, queue`head, queue`count, queue.queue
      ensures Valid() && St() == Sent(old(St()), source, phase, x, y, time)
      ensures stream == old(stream) + [Contact(source, phase, x, y, old(ids[source]), time)]
      ensures queue.Contents() == Pushed(old(queue.Contents()), Touch(phase, x, y, old(ids[source]), time))
    {
      hide Pushed, Slots;
      stream := stream + [Contact(source, phase, x, y, ids[source], time)];
      queue.Enqueue(Touch(phase, x, y, ids[source], time));
      if phase == UP {
        ids[source] := 0;
        assert ids[..] == Replaced(old(ids[..]), source, 0);
      }
    }

    /** pvz2_input_push_touch; `early` and `time` are what the clock says at each event. */
    method PushTouch(source: int, phase: Int32, x: Int32, y: Int32, early: Time, time: Time)
      requires Valid()
      modifies this`next, this`stream, ids, queue`head, queue`count, queue.queue
      ensures Valid() && St() == Pushed1(old(St()), source, phase, x, y, early, time)
      ensures !(0 <= source < 256) || (phase != 0 && old(ids[source]) == 0) ==>
                stream == old(stream) && queue.Contents() == old(queue.Contents())
      ensures 0 <= source < 256 && phase != 0 && old(ids[source]) != 0 ==>
                && stream == old(stream) + [Contact(source, phase, x, y, old(ids[source]), time)]
                && queue.Contents() == Pushed(old(queue.Contents()), Touch(phase, x, y, old(ids[source]), time))
      ensures 0 <= source < 256 && phase == 0 ==>
                var closed := if old(ids[source]) == 0 then old(queue.Contents())
                              else Pushed(old(queue.Contents()), Touch(3, x, y, old(ids[source]), early));
                queue.Contents() == Pushed(closed, Touch(0, x, y, ids[source], time)) && ids[source] != 0
      decreases if phase == DOWN then 1 else 0, 0
    {
      NewIdNonzero(next);
      hide Pushed, Slots, NewId, Successor;
      if source < 0 || source >= SOURCES {
        return;
      }
      if phase == DOWN {
        if ids[source] != 0 {
          CloseEarly(source, x, y, early);
        }
        Begin(source);
      }
      if ids[source] == 0 {
        return;
      }
      Send(source, phase, x, y, time);
    }

    /** A repeated DOWN first ends the contact it finds, through a call of its own. */
    method CloseEarly(source: nat, x: Int32, y: Int32, time: Time)
      requires Valid() && source < SOURCES && ids[source] != 0
      modifies this`next, this`stream, ids, queue`head, queue`count, queue.queue
      ensures Valid() && St() == Sent(old(St()), source, UP, x, y, time)
      ensures queue.Contents() == Pushed(old(queue.Contents()), Touch(UP, x, y, old(ids[source]), time))
      decreases 0, 1
    {
      hide Pushed, Slots;
      PushTouch(source, UP, x, y, time, time);
    }
  }
}
