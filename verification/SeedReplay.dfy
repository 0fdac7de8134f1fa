/** Replaying stored seeds: generators may ask for their seeds in another order than they were stored. */
module SeedReplay {
  import opened Options

  type Name = string

  const ANONYMOUS: Name := "<anonymous>"

  /** One line of the seed file. */
  datatype Entry = Entry(name: Name, seed: nat)

  /** The seeds stored under a name, in file order. */
  function SeedsFor(entries: seq<Entry>, name: Name): seq<nat> {
    if entries == [] then []
    else
      var last := entries[|entries| - 1];
      SeedsFor(entries[..|entries| - 1], name) + (if last.name == name then [last.seed] else [])
  }

  lemma SeedsForStep(entries: seq<Entry>, name: Name, i: nat)
    requires i < |entries|
    ensures SeedsFor(entries[..i + 1], name)
         == SeedsFor(entries[..i], name) + (if entries[i].name == name then [entries[i].seed] else [])
  {
    assert entries[..i + 1][..i] == entries[..i];
  }

  /** The seeds of a longer file start with those of a shorter one. */
  lemma {:induction false} SeedsForPrefix(entries: seq<Entry>, name: Name, i: nat)
    requires i <= |entries|
    ensures SeedsFor(entries[..i], name) <= SeedsFor(entries, name)
    decreases |entries| - i
  {
    if i == |entries| {
      assert entries[..i] == entries;
    } else {
      SeedsForStep(entries, name, i);
      SeedsForPrefix(entries, name, i + 1);
    }
  }

  type Queues = map<Name, seq<nat>>

  /** The queue of a name; a name without one has an empty queue. */
  function Queue(queues: Queues, name: Name): seq<nat> {
    if name in queues then queues[name] else []
  }

  /** The number of seeds in all queues together. */
  ghost function QueueTotal(queues: Queues): nat {
    if queues == map[] then 0
    else var name :| name in queues; |queues[name]| + QueueTotal(queues - {name})
  }

  lemma {:induction false} QueueTotalSplit(queues: Queues, name: Name)
    requires name in queues
    ensures QueueTotal(queues) == |queues[name]| + QueueTotal(queues - {name})
    decreases |queues|
  {
    var first :| first in queues && QueueTotal(queues) == |queues[first]| + QueueTotal(queues - {first});
    if first != name {
      assert |queues - {first}| < |queues| by { KeysShrink(queues, first); }
      assert |queues - {name}| < |queues| by { KeysShrink(queues, name); }
      QueueTotalSplit(queues - {first}, name);
      QueueTotalSplit(queues - {name}, first);
      assert queues - {first} - {name} == queues - {name} - {first};
    }
  }

  lemma KeysShrink(queues: Queues, name: Name)
    requires name in queues
    ensures |queues - {name}| < |queues|
  {
    assert (queues - {name}).Keys == queues.Keys - {name};
  }

  lemma QueueTotalUpdate(queues: Queues, name: Name, q: seq<nat>)
    ensures QueueTotal(queues[name := q]) + |Queue(queues, name)| == QueueTotal(queues) + |q|
  {
    QueueTotalSplit(queues[name := q], name);
    assert queues[name := q] - {name} == queues - {name};
    if name in queues {
      QueueTotalSplit(queues, name);
    } else {
      assert queues - {name} == queues;
    }
  }

  lemma QueueTotalAtLeast(queues: Queues, name: Name)
    ensures QueueTotal(queues) >= |Queue(queues, name)|
  {
    if name in queues { QueueTotalSplit(queues, name); }
  }

  function Count(answered: map<Name, nat>, name: Name): nat {
    if name in answered then answered[name] else 0
  }

  /** After reading `cursor` lines: of each name first the answered seeds, then the queued ones. */
  ghost predicate Bookkept(entries: seq<Entry>, cursor: nat, queues: Queues, answered: map<Name, nat>)
    requires cursor <= |entries|
  {
    forall name: Name ::
      && Count(answered, name) <= |SeedsFor(entries[..cursor], name)|
      && Queue(queues, name) == SeedsFor(entries[..cursor], name)[Count(answered, name)..]
  }

  /** A line that answers the request. */
  lemma AnswerLine(entries: seq<Entry>, cursor: nat, queues: Queues, answered: map<Name, nat>, s: Name)
    requires cursor < |entries| && Bookkept(entries, cursor, queues, answered)
    requires entries[cursor].name == s && Queue(queues, s) == []
    ensures Bookkept(entries, cursor + 1, queues, answered[s := Count(answered, s) + 1])
    ensures var k := Count(answered, s); k < |SeedsFor(entries, s)| && SeedsFor(entries, s)[k] == entries[cursor].seed
  {
    hide SeedsFor;
    SeedsForPrefix(entries, s, cursor + 1);
    forall name: Name
      ensures SeedsFor(entries[..cursor + 1], name) == SeedsFor(entries[..cursor], name) + (if s == name then [entries[cursor].seed] else [])
    {
      SeedsForStep(entries, name, cursor);
    }
  }

  /** A line for another name. */
  lemma QueueLine(entries: seq<Entry>, cursor: nat, queues: Queues, answered: map<Name, nat>, queues': Queues)
    requires cursor < |entries| && Bookkept(entries, cursor, queues, answered)
    requires queues' == queues[entries[cursor].name := Queue(queues, entries[cursor].name) + [entries[cursor].seed]]
    ensures Bookkept(entries, cursor + 1, queues', answered)
  {
    hide SeedsFor;
    var next := entries[cursor];
    forall name: Name
      ensures SeedsFor(entries[..cursor + 1], name) == SeedsFor(entries[..cursor], name) + (if next.name == name then [next.seed] else [])
    {
      SeedsForStep(entries, name, cursor);
    }
  }

  /** An answer from the queue. */
  lemma AnswerQueued(entries: seq<Entry>, cursor: nat, queues: Queues, answered: map<Name, nat>, s: Name)
    requires cursor <= |entries| && Bookkept(entries, cursor, queues, answered) && Queue(queues, s) != []
    ensures Bookkept(entries, cursor, queues[s := Queue(queues, s)[1..]], answered[s := Count(answered, s) + 1])
    ensures var k := Count(answered, s); k < |SeedsFor(entries, s)| && SeedsFor(entries, s)[k] == Queue(queues, s)[0]
  {
    hide SeedsFor;
    SeedsForPrefix(entries, s, cursor);
  }

  /** Nothing queued and nothing left to read: every stored seed has been given out. */
  lemma AllAnswered(entries: seq<Entry>, queues: Queues, answered: map<Name, nat>, s: Name)
    requires Bookkept(entries, |entries|, queues, answered) && Queue(queues, s) == []
    ensures Count(answered, s) == |SeedsFor(entries, s)|
  {
    assert entries[..|entries|] == entries;
  }

  class Replay {
    const entries: seq<Entry>
    var cursor: nat
    var isOpen: bool
    var outstanding: Queues
    var numOutstanding: nat
    ghost var answered: map<Name, nat>

    /** The counter is the number of queued seeds; a closed file has been read to its end. */
    ghost predicate Valid()
      reads this
    {
      && cursor <= |entries| && (!isOpen ==> cursor == |entries|)
      && numOutstanding == QueueTotal(outstanding)
      && Bookkept(entries, cursor, outstanding, answered)
    }

    constructor (entries: seq<Entry>)
      ensures Valid() && this.entries == entries && answered == map[] && isOpen
    {
      this.entries := entries;
      cursor, isOpen, outstanding, numOutstanding, answered := 0, true, map[], 0, map[];
      new;
      assert entries[..0] == [];
    }

    /** `retrieve_seed`: the k-th request for a name gets the k-th seed stored under it, whatever was
        asked for in between; a request beyond the last stored seed gets none. */
    method RetrieveSeed(name: Name) returns (seed: Option<nat>)
      requires Valid()
      modifies this
      ensures Valid()
      ensures var s := if name == "" then ANONYMOUS else name;
              var k := Count(old(answered), s);
              if k < |SeedsFor(entries, s)| then seed == Some(SeedsFor(entries, s)[k]) && answered == old(answered)[s := k + 1]
              else seed == None && answered == old(answered) && !isOpen
    {
      hide Bookkept, SeedsFor;
      var s := if name == "" then ANONYMOUS else name;
      QueueTotalAtLeast(outstanding, s);
      if numOutstanding > 0 && |Queue(outstanding, s)| > 0 {
        var queue := Queue(outstanding, s);
        AnswerQueued(entries, cursor, outstanding, answered, s);
        QueueTotalUpdate(outstanding, s, queue[1..]);
        seed := Some(queue[0]);
        outstanding := outstanding[s := queue[1..]];
        numOutstanding := numOutstanding - 1;
        answered := answered[s := Count(answered, s) + 1];
        return;
      }
      seed := None;
      if isOpen {
        seed := ReadUntil(s);
        if seed == None {
          isOpen := false;
        }
      } else {
        AllAnswered(entries, outstanding, answered, s);
      }
    }

    /** The loop of `retrieve_seed`: reads on to the next seed stored under `s`, queueing all others. */
    method ReadUntil(s: Name) returns (seed: Option<nat>)
      requires Valid() && s != "" && Queue(outstanding, s) == []
      modifies this`cursor, this`outstanding, this`numOutstanding, this`answered
      ensures Valid()
      ensures var k := Count(old(answered), s);
              if seed == None then cursor == |entries| && answered == old(answered) && k == |SeedsFor(entries, s)|
              else k < |SeedsFor(entries, s)| && seed == Some(SeedsFor(entries, s)[k]) && answered == old(answered)[s := k + 1]
    {
      hide Bookkept, SeedsFor;
      seed := None;
      while seed == None && cursor < |entries|
        invariant Valid()
        invariant seed == None ==> answered == old(answered) && Queue(outstanding, s) == []
        invariant seed != None ==>
          var k := Count(old(answered), s);
          k < |SeedsFor(entries, s)| && seed == Some(SeedsFor(entries, s)[k]) && answered == old(answered)[s := k + 1]
        decreases |entries| - cursor
      {
        var next := entries[cursor];
        if next.name == s || (next.name == ANONYMOUS && s == "") {
          AnswerLine(entries, cursor, outstanding, answered, s);
          seed := Some(next.seed);
          answered := answered[s := Count(answered, s) + 1];
        } else {
          var queue := Queue(outstanding, next.name) + [next.seed];
          QueueLine(entries, cursor, outstanding, answered, outstanding[next.name := queue]);
          QueueTotalUpdate(outstanding, next.name, queue);
          numOutstanding := numOutstanding + 1;
          outstanding := outstanding[next.name := queue];
        }
        cursor := cursor + 1;
      }
      if seed == None {
        AllAnswered(entries, outstanding, answered, s);
      }
    }
  }
}
