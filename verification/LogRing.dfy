/** The shared log: a ring of 120 entries that writers add to in pieces and readers follow by
    the index the previous call returned. */
module LogRing {
  import opened Text

  const MAX_LOGS: nat := 120
  const MAX_TEXT: nat := 98

  datatype Entry = Entry(from: nat, ts: int, text: Text)

  /** Any sender. */
  const FROM_NONE: nat := 0

  // ----- pieces -----

  /** A text in pieces of the length an entry can hold. */
  function Pieces(text: Text): seq<Text> {
    if text == [] then []
    else if |text| <= MAX_TEXT then [text]
    else [text[..MAX_TEXT]] + Pieces(text[MAX_TEXT..])
  }

  function Joined(pieces: seq<Text>): Text {
    if pieces == [] then "" else pieces[0] + Joined(pieces[1..])
  }

  /** The pieces make up the text, fit an entry, and are as few as can be. */
  lemma {:induction false} PiecesJoin(text: Text)
    ensures Joined(Pieces(text)) == text
    ensures |Pieces(text)| == (|text| + 97) / 98
    ensures forall i :: 0 <= i < |Pieces(text)| ==> 0 < |Pieces(text)[i]| <= 98
  {
    if |text| > MAX_TEXT {
      PiecesJoin(text[MAX_TEXT..]);
      assert Pieces(text)[1..] == Pieces(text[MAX_TEXT..]);
      assert text[..MAX_TEXT] + text[MAX_TEXT..] == text;
    } else if text != [] {
      assert Joined([text]) == text + Joined([]);
    }
  }

  function Entries(from: nat, ts: int, pieces: seq<Text>): (entries: seq<Entry>)
    ensures |entries| == |pieces|
    ensures forall i :: 0 <= i < |pieces| ==> entries[i] == Entry(from, ts, pieces[i])
  {
    seq(|pieces|, i requires 0 <= i < |pieces| => Entry(from, ts, pieces[i]))
  }

  lemma EntriesNext(h: seq<Entry>, from: nat, ts: int, pieces: seq<Text>, piece: Text)
    ensures h + Entries(from, ts, pieces + [piece]) == h + Entries(from, ts, pieces) + [Entry(from, ts, piece)]
  {
  }

  // ----- following -----

  predicate Matches(from: nat, entry: Entry) {
    from == FROM_NONE || entry.from == from
  }

  /** The entries of a sender. */
  function Selected(from: nat, entries: seq<Entry>): seq<Entry> {
    if entries == [] then []
    else
      var before := Selected(from, entries[..|entries| - 1]);
      var last := entries[|entries| - 1];
      if Matches(from, last) then before + [last] else before
  }

  lemma {:induction false} SelectedAppend(from: nat, s: seq<Entry>, t: seq<Entry>)
    ensures Selected(from, s + t) == Selected(from, s) + Selected(from, t)
  {
    if t == [] {
      assert s + t == s;
    } else {
      assert (s + t)[..|s + t| - 1] == s + t[..|t| - 1];
      SelectedAppend(from, s, t[..|t| - 1]);
    }
  }

  lemma {:induction false} SelectedAll(entries: seq<Entry>)
    ensures Selected(FROM_NONE, entries) == entries
  {
    if entries != [] {
      SelectedAll(entries[..|entries| - 1]);
      assert entries[..|entries| - 1] + [entries[|entries| - 1]] == entries;
    }
  }

  /** What a call-back says to the first entry it is passed; yes when its script has run out. */
  function Says(agree: seq<bool>): bool {
    agree == [] || agree[0]
  }

  function Rest(agree: seq<bool>): seq<bool> {
    if agree == [] then [] else agree[1..]
  }

  /** How many entries a call looks at: all of them, or up to the first the call-back says no to. */
  function Looked(from: nat, entries: seq<Entry>, agree: seq<bool>): (n: nat)
    ensures n <= |entries|
  {
    if entries == [] then 0
    else if !Matches(from, entries[0]) then 1 + Looked(from, entries[1..], agree)
    else if !Says(agree) then 1
    else 1 + Looked(from, entries[1..], Rest(agree))
  }

  /** Where a call-back never says no, all of them. */
  lemma {:induction false} LookedAll(from: nat, entries: seq<Entry>, agree: seq<bool>)
    requires false !in agree
    ensures Looked(from, entries, agree) == |entries|
  {
    if entries != [] {
      LookedAll(from, entries[1..], if Matches(from, entries[0]) then Rest(agree) else agree);
    }
  }

  /** Selecting goes by the first entry as well as by the last. */
  lemma SelectedFirst(from: nat, entries: seq<Entry>)
    requires entries != []
    ensures Selected(from, entries)
         == (if Matches(from, entries[0]) then [entries[0]] else []) + Selected(from, entries[1..])
  {
    SelectedAppend(from, [entries[0]], entries[1..]);
    assert [entries[0]] + entries[1..] == entries;
    assert Selected(from, [entries[0]][..0]) == [];
  }

  /** A call stops short exactly at an entry the call-back says no to, having said yes to all
      that were passed before. */
  lemma {:induction false} LookedStop(from: nat, entries: seq<Entry>, agree: seq<bool>)
    ensures var n := Looked(from, entries, agree);
            var passed := Selected(from, entries[..n]);
            && (n < |entries| ==> 0 < |passed| <= |agree| && !agree[|passed| - 1])
            && (n < |entries| ==> n > 0 && Matches(from, entries[n - 1]))
            && forall i :: 0 <= i < |agree| && i + 1 < |passed| ==> agree[i]
  {
    if entries != [] {
      var (n, first) := (Looked(from, entries, agree), entries[0]);
      var agree' := if Matches(from, first) then Rest(agree) else agree;
      assert entries[..n][1..] == entries[1..][..n - 1];
      SelectedFirst(from, entries[..n]);
      LookedStop(from, entries[1..], agree');
      if Matches(from, first) && !Says(agree) {
        assert entries[1..][..0] == [];
      }
    }
  }

  /** Each entry that names a sender as often as it is there, and no other entry. */
  ghost predicate OnlyOf(from: nat, some: seq<Entry>, all: seq<Entry>) {
    forall e: Entry :: multiset(some)[e] == if e.from == from then multiset(all)[e] else 0
  }

  /** A call for one sender passes entries of that sender only, each as often as it is there; a
      call for sender 0 passes all entries. */
  lemma {:induction false} SelectedOnly(from: nat, entries: seq<Entry>)
    ensures from == 0 ==> Selected(from, entries) == entries
    ensures from != 0 ==> forall e :: e in Selected(from, entries) ==> e.from == from
    ensures from != 0 ==> OnlyOf(from, Selected(from, entries), entries)
  {
    if from == 0 {
      SelectedAll(entries);
    } else if entries != [] {
      var (before, last) := (entries[..|entries| - 1], entries[|entries| - 1]);
      SelectedOnly(from, before);
      assert entries == before + [last];
      assert multiset(entries) == multiset(before) + multiset{last};
      CountedOne(Selected(from, before), last);
    }
  }

  lemma CountedOne(s: seq<Entry>, e: Entry)
    ensures multiset(s + [e]) == multiset(s) + multiset{e}
  {
  }

  class Log {
    var cnt: nat
    var index: nat
    const log: array<Entry>
    /** Everything added since the log was last emptied. */
    ghost var history: seq<Entry>

    ghost predicate Valid()
      reads this, log
    {
      && log.Length == MAX_LOGS && cnt == |history| && index == cnt % MAX_LOGS
      && forall k | 0 <= k < |history| && |history| - MAX_LOGS <= k :: log[k % MAX_LOGS] == history[k]
    }

    constructor ()
      ensures Valid() && history == [] && fresh(log)
    {
      cnt, index, history := 0, 0, [];
      log := new Entry[MAX_LOGS](_ => Entry(FROM_NONE, 0, ""));
    }

    method Empty()
      requires Valid()
      modifies this
      ensures Valid() && history == []
    {
      cnt, index, history := 0, 0, [];
    }

    /** -1 while nothing was added. */
    method GetIndex() returns (at: int)
      requires Valid()
      ensures at == if history == [] then -1 else |history| % MAX_LOGS
    {
      at := if cnt > 0 then index else -1;
    }

    /** One turn of the loop of Add. */
    method Put(entry: Entry)
      requires Valid()
      modifies this, log
      ensures Valid() && history == old(history) + [entry]
    {
      ghost var n := |history|;
      log[index] := entry;
      index := index + 1;
      if index >= MAX_LOGS {
        index := 0;
      }
      cnt := cnt + 1;
      history := history + [entry];
      forall k | 0 <= k < n + 1 && n + 1 - MAX_LOGS <= k
        ensures log[k % MAX_LOGS] == history[k]
      {
        if k < n {
          SamePlace(k, n);
        }
      }
    }

    method Add(from: nat, text: Text, now: int)
      requires Valid()
      modifies this, log
      ensures Valid() && history == old(history) + Entries(from, now, Pieces(text))
    {
      var left := text;
      ghost var pieces := [];
      assert history == old(history) + Entries(from, now, []);
      while |left| > 0
        invariant Valid() && pieces + Pieces(left) == Pieces(text)
        invariant history == old(history) + Entries(from, now, pieces)
        decreases |left|
      {
        var piece := if |left| > MAX_TEXT then left[..MAX_TEXT] else left;
        Put(Entry(from, now, piece));
        EntriesNext(old(history), from, now, pieces, piece);
        left := if |left| > MAX_TEXT then left[MAX_TEXT..] else [];
        assert pieces + ([piece] + Pieces(left)) == pieces + [piece] + Pieces(left);
        pieces := pieces + [piece];
      }
    }

    /** A follower's index stands for a position in the history; -1 for its start. */
    ghost predicate StandsFor(startIndex: int, position: nat)
      reads this
    {
      position <= |history| && (if startIndex < 0 then position == 0 else startIndex == position % MAX_LOGS)
    }

    /** How many entries a call looks at. */
    ghost function Backlog(position: nat): (n: nat)
      requires position <= |history|
      reads this
      ensures n < MAX_LOGS && n <= |history| - position
    {
      (|history| - position) % MAX_LOGS
    }

    /** Passes entries to a call-back until it says no; `agree` is what it will say. What is
        passed are the selected ones of the last entries, as many as the backlog is modulo
        the size of the ring, up to the one it stopped at. */
    method Loop(from: nat, startIndex: int, agree: seq<bool>, ghost position: nat)
        returns (end: nat, passed: seq<Entry>, ghost visit: Visit)
      requires Valid() && StandsFor(startIndex, position)
      ensures visit == VisitOf(from, history, position, agree)
      ensures StandsFor(end, visit.reached) && passed == Passed(from, history, visit)
      ensures from != 0 ==> forall e :: e in passed ==> e.from == from
    {
      var start, count;
      ghost var first, reached;
      start, count, first := FirstPlace(startIndex, position);
      end, passed, reached := Walk(from, start, count, agree, first);
      visit := Visit(position, |history|, reached);
      SelectedOnly(from, history[first..reached]);
      VisitIs(from, history, position, agree, first, reached);
    }

    /** Where a call starts, and how many entries it may look at. */
    method FirstPlace(startIndex: int, ghost position: nat) returns (start: nat, count: nat, ghost first: nat)
      requires Valid() && StandsFor(startIndex, position)
      ensures count == Backlog(position) && first == |history| - count && start == first % MAX_LOGS
    {
      count := Behind(startIndex, position);
      first := |history| - count;
      StartPlace(|history|, count);
      start := if index - count < 0 then index - count + MAX_LOGS else index - count;
    }

    /** The distance of a follower's index from the writers', around the ring. */
    method Behind(startIndex: int, ghost position: nat) returns (count: nat)
      requires Valid() && StandsFor(startIndex, position)
      ensures count == Backlog(position)
    {
      DistanceIsBacklog(|history|, position);
      if startIndex < 0 {
        count := cnt % MAX_LOGS;
      } else if index - startIndex < 0 {
        count := index - startIndex + MAX_LOGS;
      } else {
        count := index - startIndex;
      }
    }

    /** The loop stands at a place of the ring that holds an entry of the history. */
    ghost predicate Walking(from: nat, end: nat, position: nat, reached: nat, passed: seq<Entry>)
      reads this, log
    {
      && Valid() && |history| - MAX_LOGS < position <= reached <= |history| && end == reached % MAX_LOGS
      && passed == Selected(from, history[position..reached])
    }

    /** One turn of the loop. */
    method WalkNext(from: nat, end: nat, passed: seq<Entry>, left: seq<bool>, ghost position: nat, ghost reached: nat)
        returns (end': nat, passed': seq<Entry>, ok: bool, left': seq<bool>)
      requires Walking(from, end, position, reached, passed) && reached < |history|
      ensures Walking(from, end', position, reached + 1, passed')
      ensures Looked(from, history[reached..], left)
        == 1 + if ok then Looked(from, history[reached + 1..], left') else 0
    {
      assert log[end] == history[reached];
      NextPlace(reached);
      SelectedStep(from, history, position, reached);
      LookedStep(from, history, reached, left);
      passed', ok, left' := passed, true, left;
      if Matches(from, log[end]) {
        passed', ok, left' := passed + [log[end]], Says(left), Rest(left);
      }
      end' := if end + 1 >= MAX_LOGS then 0 else end + 1;
    }

    /** The loop over the entries from a place on. */
    method Walk(from: nat, first: nat, count: nat, agree: seq<bool>, ghost position: nat)
        returns (end: nat, passed: seq<Entry>, ghost reached: nat)
      requires Valid() && count < MAX_LOGS && position == |history| - count && first == position % MAX_LOGS
      ensures position <= reached <= |history| && StandsFor(end, reached)
      ensures passed == Selected(from, history[position..reached])
      ensures reached == position + Looked(from, history[position..], agree)
    {
      var i: nat, ok, left := 0, true, agree;
      end, passed, reached := first, [], position;
      while i < count && ok
        invariant i <= count && reached == position + i && Walking(from, end, position, reached, passed)
        invariant Looked(from, history[position..], agree)
          == i + if ok then Looked(from, history[reached..], left) else 0
        decreases count - i
      {
        end, passed, ok, left := WalkNext(from, end, passed, left, position, reached);
        i, reached := i + 1, reached + 1;
      }
    }
  }

  lemma LookedStep(from: nat, history: seq<Entry>, at: nat, agree: seq<bool>)
    requires at < |history|
    ensures Looked(from, history[at..], agree)
         == if !Matches(from, history[at]) then 1 + Looked(from, history[at + 1..], agree)
            else if !Says(agree) then 1 else 1 + Looked(from, history[at + 1..], Rest(agree))
  {
    assert history[at..][1..] == history[at + 1..];
  }

  lemma SelectedStep(from: nat, history: seq<Entry>, first: nat, reached: nat)
    requires first <= reached < |history|
    ensures Selected(from, history[first..reached + 1])
         == Selected(from, history[first..reached]) + if Matches(from, history[reached]) then [history[reached]] else []
  {
    assert history[first..reached + 1][..reached - first] == history[first..reached];
  }

  lemma NextPlace(n: nat)
    ensures (n + 1) % MAX_LOGS == if n % MAX_LOGS + 1 >= MAX_LOGS then 0 else n % MAX_LOGS + 1
  {
  }

  lemma SamePlace(k: nat, n: nat)
    requires k < n < k + MAX_LOGS
    ensures k % MAX_LOGS != n % MAX_LOGS
  {
  }

  /** The distance on the ring is that in the history, modulo its size. */
  lemma DistanceIsBacklog(n: nat, position: nat)
    requires position <= n
    ensures var d := n % MAX_LOGS - position % MAX_LOGS;
            (n - position) % MAX_LOGS == if d < 0 then d + MAX_LOGS else d
  {
    var (d, turns) := (n % MAX_LOGS - position % MAX_LOGS, n / MAX_LOGS - position / MAX_LOGS);
    assert n - position == MAX_LOGS * turns + d;
    if d < 0 {
      Remainder(turns - 1, d + MAX_LOGS);
    } else {
      Remainder(turns, d);
    }
  }

  lemma StartPlace(n: nat, count: nat)
    requires count < MAX_LOGS && count <= n
    ensures var start := n % MAX_LOGS - count;
            (n - count) % MAX_LOGS == if start < 0 then start + MAX_LOGS else start
  {
    var (start, turns) := (n % MAX_LOGS - count, n / MAX_LOGS);
    if start < 0 {
      assert n - count == MAX_LOGS * (turns - 1) + (start + MAX_LOGS);
      Remainder(turns - 1, start + MAX_LOGS);
    } else {
      assert n - count == MAX_LOGS * turns + start;
      Remainder(turns, start);
    }
  }

  lemma Remainder(turns: int, d: nat)
    requires d < MAX_LOGS && MAX_LOGS * turns + d >= 0
    ensures (MAX_LOGS * turns + d) % MAX_LOGS == d
  {
  }

  lemma SelectedSplit(from: nat, h: seq<Entry>, start: nat, middle: nat, end: nat)
    requires start <= middle <= end <= |h|
    ensures Selected(from, h[start..end]) == Selected(from, h[start..middle]) + Selected(from, h[middle..end])
  {
    SelectedAppend(from, h[start..middle], h[middle..end]);
    assert h[start..end] == h[start..middle] + h[middle..end];
  }

  // ----- what a follower misses -----

  /** One call of a follower: where it stood, how long the history was, and where it stood after. */
  datatype Visit = Visit(position: nat, length: nat, reached: nat)
  {
    /** The first entry the call looked at. */
    function First(): nat
      requires position <= length
    {
      length - (length - position) % MAX_LOGS
    }

    predicate Sound() {
      position <= length && First() <= reached <= length
    }
  }

  function Passed(from: nat, h: seq<Entry>, v: Visit): seq<Entry>
    requires v.Sound() && v.length <= |h|
  {
    Selected(from, h[v.First()..v.reached])
  }

  /** The entries the follower was to get and the call went past. */
  function Missed(from: nat, h: seq<Entry>, v: Visit): seq<Entry>
    requires v.Sound() && v.length <= |h|
  {
    Selected(from, h[v.position..v.First()])
  }

  /** Calls in turn, each from where the one before it left off. */
  predicate Run(visits: seq<Visit>, start: nat, position: nat, length: nat) {
    if visits == [] then start == position <= length
    else
      var last := visits[|visits| - 1];
      last.Sound() && last.length <= length && last.reached == position
      && Run(visits[..|visits| - 1], start, last.position, last.length)
  }

  lemma {:induction false} RunLonger(visits: seq<Visit>, start: nat, position: nat, length: nat, length': nat)
    requires Run(visits, start, position, length) && length <= length'
    ensures Run(visits, start, position, length') && start <= position <= length
    ensures forall i :: 0 <= i < |visits| ==> visits[i].Sound() && visits[i].length <= length
  {
    if visits != [] {
      var last := visits[|visits| - 1];
      RunLonger(visits[..|visits| - 1], start, last.position, last.length, last.length);
    }
  }

  /** What a run of calls passed. */
  function Gathered(from: nat, h: seq<Entry>, visits: seq<Visit>, start: nat, position: nat): seq<Entry>
    requires Run(visits, start, position, |h|)
  {
    if visits == [] then []
    else
      var last := visits[|visits| - 1];
      RunLonger(visits[..|visits| - 1], start, last.position, last.length, |h|);
      Gathered(from, h, visits[..|visits| - 1], start, last.position) + Passed(from, h, last)
  }

  predicate NothingMissed(from: nat, h: seq<Entry>, visits: seq<Visit>)
    requires forall i :: 0 <= i < |visits| ==> visits[i].Sound() && visits[i].length <= |h|
  {
    forall i :: 0 <= i < |visits| ==> Missed(from, h, visits[i]) == []
  }

  lemma Cancel(delivered: seq<Entry>, wanted: seq<Entry>, missed: seq<Entry>, passed: seq<Entry>)
    requires |delivered| <= |wanted|
    ensures delivered + passed == wanted + missed + passed <==> delivered == wanted && missed == []
  {
    if delivered + passed == wanted + missed + passed {
      assert |delivered| + |passed| == |wanted| + |missed| + |passed|;
      assert delivered == (delivered + passed)[..|delivered|] == (wanted + missed + passed)[..|wanted|] == wanted;
    } else if missed == [] {
      assert wanted + missed == wanted;
    }
  }

  /** A run of calls delivers every selected entry exactly once and in order if and only if no
      call goes past one. */
  lemma {:induction false} GatheredComplete(from: nat, h: seq<Entry>, visits: seq<Visit>, start: nat, position: nat)
    requires Run(visits, start, position, |h|)
    ensures start <= position <= |h|
    ensures forall i :: 0 <= i < |visits| ==> visits[i].Sound() && visits[i].length <= |h|
    ensures |Gathered(from, h, visits, start, position)| <= |Selected(from, h[start..position])|
    ensures Gathered(from, h, visits, start, position) == Selected(from, h[start..position])
       <==> NothingMissed(from, h, visits)
  {
    RunLonger(visits, start, position, |h|, |h|);
    if visits != [] {
      var (before, last) := (visits[..|visits| - 1], visits[|visits| - 1]);
      RunLonger(before, start, last.position, last.length, |h|);
      GatheredComplete(from, h, before, start, last.position);
      SelectedSplit(from, h, start, last.position, last.First());
      SelectedSplit(from, h, start, last.First(), position);
      Cancel(Gathered(from, h, before, start, last.position), Selected(from, h[start..last.position]),
             Missed(from, h, last), Passed(from, h, last));
      MissedBefore(from, h, visits);
    }
  }

  lemma MissedBefore(from: nat, h: seq<Entry>, visits: seq<Visit>)
    requires visits != [] && forall i :: 0 <= i < |visits| ==> visits[i].Sound() && visits[i].length <= |h|
    ensures NothingMissed(from, h, visits) <==>
      NothingMissed(from, h, visits[..|visits| - 1]) && Missed(from, h, visits[|visits| - 1]) == []
  {
    var before := visits[..|visits| - 1];
    if NothingMissed(from, h, visits) {
      assert forall i :: 0 <= i < |before| ==> before[i] == visits[i];
    }
    if NothingMissed(from, h, before) && Missed(from, h, visits[|visits| - 1]) == [] {
      forall i | 0 <= i < |visits| ensures Missed(from, h, visits[i]) == [] {
        if i < |before| {
          assert Missed(from, h, before[i]) == [];
        }
      }
    }
  }

  /** A follower of all senders misses something exactly if it finds a full ring or more behind. */
  lemma MissedOfAll(h: seq<Entry>, v: Visit)
    requires v.Sound() && v.length <= |h|
    ensures Missed(FROM_NONE, h, v) == [] <==> v.length - v.position < MAX_LOGS
  {
    SelectedAll(h[v.position..v.First()]);
    FullRing(v.length - v.position);
  }

  lemma FullRing(n: nat)
    ensures n % MAX_LOGS == n <==> n < MAX_LOGS
  {
  }

  lemma GatheredAppend(from: nat, h: seq<Entry>, more: seq<Entry>, visits: seq<Visit>, start: nat, position: nat)
    requires Run(visits, start, position, |h|)
    ensures Run(visits, start, position, |h + more|)
    ensures Gathered(from, h + more, visits, start, position) == Gathered(from, h, visits, start, position)
  {
    RunLonger(visits, start, position, |h|, |h + more|);
    if visits != [] {
      var (before, last) := (visits[..|visits| - 1], visits[|visits| - 1]);
      RunLonger(before, start, last.position, last.length, |h|);
      GatheredAppend(from, h, more, before, start, last.position);
      assert (h + more)[last.First()..last.reached] == h[last.First()..last.reached];
    }
  }

  datatype Step = Append(from: nat, text: Text, now: int) | Tail(agree: seq<bool>)

  /** What a follower has is what it was to get. */
  ghost predicate Complete(log: Log, from: nat, start: nat, position: nat, delivered: seq<Entry>)
    reads log
  {
    start <= position <= |log.history| && delivered == Selected(from, log.history[start..position])
  }

  /** The call a follower makes from a position, with what its call-back will say. */
  function VisitOf(from: nat, h: seq<Entry>, position: nat, agree: seq<bool>): (v: Visit)
    requires position <= |h|
    ensures v.Sound() && v.position == position && v.length == |h|
    ensures v.reached == v.First() + Looked(from, h[v.First()..], agree)
  {
    var first := |h| - (|h| - position) % MAX_LOGS;
    Visit(position, |h|, first + Looked(from, h[first..], agree))
  }

  lemma VisitIs(from: nat, h: seq<Entry>, position: nat, agree: seq<bool>, first: nat, reached: nat)
    requires position <= |h| && first == |h| - (|h| - position) % MAX_LOGS
    requires reached == first + Looked(from, h[first..], agree)
    ensures Visit(position, |h|, reached) == VisitOf(from, h, position, agree)
    ensures Visit(position, |h|, reached).Sound() && Visit(position, |h|, reached).First() == first
  {
  }

  /** A call hands on what it passes. A follower that was complete stays so if and only if the
      call goes past no selected entry; for one of all senders, if and only if it finds less
      than a full ring behind. */
  method TailOnce(log: Log, from: nat, at: int, agree: seq<bool>, delivered: seq<Entry>, ghost start: nat,
                  ghost position: nat)
      returns (at': int, delivered': seq<Entry>, ghost visit: Visit)
    requires log.Valid() && log.StandsFor(at, position) && start <= position
    ensures visit == VisitOf(from, log.history, position, agree)
    ensures log.StandsFor(at', visit.reached) && delivered' == delivered + Passed(from, log.history, visit)
    ensures Complete(log, from, start, position, delivered) ==>
      (Complete(log, from, start, visit.reached, delivered') <==> Missed(from, log.history, visit) == [])
    ensures Complete(log, from, start, position, delivered) && from == FROM_NONE ==>
      (Complete(log, from, start, visit.reached, delivered') <==> |log.history| - position < MAX_LOGS)
  {
    var passed;
    at', passed, visit := log.Loop(from, at, agree, position);
    delivered' := delivered + passed;
    if Complete(log, from, start, position, delivered) {
      StaysComplete(log, from, start, delivered, visit);
    }
  }

  lemma StaysComplete(log: Log, from: nat, start: nat, delivered: seq<Entry>, v: Visit)
    requires v.Sound() && v.length == |log.history| && Complete(log, from, start, v.position, delivered)
    ensures var complete := Complete(log, from, start, v.reached, delivered + Passed(from, log.history, v));
            && (complete <==> Missed(from, log.history, v) == [])
            && (from == FROM_NONE ==> (complete <==> v.length - v.position < MAX_LOGS))
  {
    CompleteStep(log, from, start, delivered, v);
    if from == FROM_NONE {
      MissedOfAll(log.history, v);
    }
  }

  lemma CompleteStep(log: Log, from: nat, start: nat, delivered: seq<Entry>, v: Visit)
    requires v.Sound() && v.length == |log.history| && Complete(log, from, start, v.position, delivered)
    ensures Complete(log, from, start, v.reached, delivered + Passed(from, log.history, v))
       <==> Missed(from, log.history, v) == []
  {
    var h := log.history;
    SelectedSplit(from, h, start, v.position, v.First());
    SelectedSplit(from, h, start, v.First(), v.reached);
    Cancel(delivered, Selected(from, h[start..v.position]), Missed(from, h, v), Passed(from, h, v));
  }

  /** What a follower has is what its calls passed. */
  ghost predicate Following(log: Log, from: nat, at: int, start: nat, visits: seq<Visit>,
                            position: nat, delivered: seq<Entry>)
    reads log
  {
    && Run(visits, start, position, |log.history|) && log.StandsFor(at, position)
    && delivered == Gathered(from, log.history, visits, start, position)
  }

  method AppendOnce(log: Log, sender: nat, text: Text, now: int, ghost from: nat, ghost at: int, ghost start: nat,
                    ghost visits: seq<Visit>, ghost position: nat, ghost delivered: seq<Entry>)
    requires log.Valid() && Following(log, from, at, start, visits, position, delivered)
    modifies log, log.log
    ensures log.Valid() && Following(log, from, at, start, visits, position, delivered)
    ensures log.history == old(log.history) + Entries(sender, now, Pieces(text))
  {
    GatheredAppend(from, log.history, Entries(sender, now, Pieces(text)), visits, start, position);
    log.Add(sender, text, now);
  }

  function Reached(visits: seq<Visit>, start: nat): nat {
    if visits == [] then start else visits[|visits| - 1].reached
  }

  /** A step of a run adds a call, if it is one. */
  function NextVisits(from: nat, h: seq<Entry>, visits: seq<Visit>, position: nat, step: Step): seq<Visit>
    requires position <= |h|
  {
    match step
    case Append(_, _, _) => visits
    case Tail(agree) => visits + [VisitOf(from, h, position, agree)]
  }

  method VisitOnce(log: Log, from: nat, at: int, agree: seq<bool>, delivered: seq<Entry>, ghost start: nat,
                   ghost visits: seq<Visit>, ghost position: nat)
      returns (at': int, delivered': seq<Entry>, ghost visit: Visit)
    requires log.Valid() && Following(log, from, at, start, visits, position, delivered)
    ensures visit == VisitOf(from, log.history, position, agree)
    ensures Following(log, from, at', start, visits + [visit], visit.reached, delivered')
  {
    RunLonger(visits, start, position, |log.history|, |log.history|);
    at', delivered', visit := TailOnce(log, from, at, agree, delivered, start, position);
    assert (visits + [visit])[..|visits|] == visits;
  }

  method StepOnce(log: Log, from: nat, step: Step, at: int, delivered: seq<Entry>, ghost start: nat,
                  ghost visits: seq<Visit>)
      returns (at': int, delivered': seq<Entry>, ghost visits': seq<Visit>)
    requires log.Valid() && Following(log, from, at, start, visits, Reached(visits, start), delivered)
    modifies log, log.log
    ensures log.Valid() && log.history == old(log.history) + AddedBy(step)
    ensures visits' == NextVisits(from, old(log.history), visits, Reached(visits, start), step)
    ensures Following(log, from, at', start, visits', Reached(visits', start), delivered')
  {
    at', delivered', visits' := at, delivered, visits;
    match step
    case Append(sender, text, now) =>
      AppendOnce(log, sender, text, now, from, at, start, visits, Reached(visits, start), delivered);
    case Tail(agree) =>
      ghost var visit;
      at', delivered', visit := VisitOnce(log, from, at, agree, delivered, start, visits, Reached(visits, start));
      visits' := visits + [visit];
  }

  function AddedBy(step: Step): seq<Entry> {
    match step
    case Append(from, text, now) => Entries(from, now, Pieces(text))
    case Tail(_) => []
  }

  function Added(steps: seq<Step>): seq<Entry> {
    if steps == [] then [] else Added(steps[..|steps| - 1]) + AddedBy(steps[|steps| - 1])
  }

  /** The calls of a run that starts at the end of a history: one for each step that is a call,
      on what was added by then, from where the call before it left off. */
  function VisitsOf(from: nat, h: seq<Entry>, steps: seq<Step>): (visits: seq<Visit>)
    ensures Run(visits, |h|, Reached(visits, |h|), |h + Added(steps)|)
  {
    if steps == [] then []
    else
      var (before, last) := (steps[..|steps| - 1], steps[|steps| - 1]);
      var visits := VisitsOf(from, h, before);
      RunLonger(visits, |h|, Reached(visits, |h|), |h + Added(before)|, |h + Added(steps)|);
      NextRun(from, h + Added(before), visits, |h|, last, |h + Added(steps)|);
      NextVisits(from, h + Added(before), visits, Reached(visits, |h|), last)
  }

  lemma NextRun(from: nat, h: seq<Entry>, visits: seq<Visit>, start: nat, step: Step, length: nat)
    requires Run(visits, start, Reached(visits, start), |h|) && |h| <= length
    ensures Reached(visits, start) <= |h|
    ensures var visits' := NextVisits(from, h, visits, Reached(visits, start), step);
            Run(visits', start, Reached(visits', start), length)
  {
    RunLonger(visits, start, Reached(visits, start), |h|, length);
    if step.Tail? {
      var visit := VisitOf(from, h, Reached(visits, start), step.agree);
      assert (visits + [visit])[..|visits|] == visits;
    }
  }

  /** What a follower that starts at the end of a history has after some steps. */
  function Delivered(from: nat, h: seq<Entry>, steps: seq<Step>): seq<Entry> {
    var visits := VisitsOf(from, h, steps);
    Gathered(from, h + Added(steps), visits, |h|, Reached(visits, |h|))
  }

  lemma AddedLast(h: seq<Entry>, before: seq<Step>, last: Step)
    ensures h + Added(before + [last]) == h + Added(before) + AddedBy(last)
  {
    assert (before + [last])[..|before|] == before;
  }

  lemma VisitsLast(from: nat, h: seq<Entry>, before: seq<Step>, last: Step)
    ensures var visits := VisitsOf(from, h, before);
            Reached(visits, |h|) <= |h + Added(before)|
            && VisitsOf(from, h, before + [last])
            == NextVisits(from, h + Added(before), visits, Reached(visits, |h|), last)
  {
    var (steps, visits) := (before + [last], VisitsOf(from, h, before));
    assert steps[..|steps| - 1] == before;
    RunLonger(visits, |h|, Reached(visits, |h|), |h + Added(before)|, |h + Added(before)|);
  }

  /** Where a follower is after some steps. */
  ghost predicate Followed(log: Log, from: nat, at: int, h: seq<Entry>, done: seq<Step>, delivered: seq<Entry>)
    reads log
  {
    var visits := VisitsOf(from, h, done);
    log.history == h + Added(done) && Following(log, from, at, |h|, visits, Reached(visits, |h|), delivered)
  }

  /** One turn of the loop. */
  method FollowNext(log: Log, from: nat, step: Step, at: int, delivered: seq<Entry>, ghost h: seq<Entry>,
                    ghost done: seq<Step>)
      returns (at': int, delivered': seq<Entry>)
    requires log.Valid() && Followed(log, from, at, h, done, delivered)
    modifies log, log.log
    ensures log.Valid() && Followed(log, from, at', h, done + [step], delivered')
  {
    VisitsLast(from, h, done, step);
    AddedLast(h, done, step);
    ghost var visits;
    at', delivered', visits := StepOnce(log, from, step, at, delivered, |h|, VisitsOf(from, h, done));
  }

  /** Writers add and a follower tails, in any order, stopping early as it likes: what it has in
      the end is determined by the history and the steps. */
  method Follow(log: Log, from: nat, steps: seq<Step>) returns (delivered: seq<Entry>)
    requires log.Valid()
    modifies log, log.log
    ensures log.Valid() && log.history == old(log.history) + Added(steps)
    ensures delivered == Delivered(from, old(log.history), steps)
    ensures from != 0 ==> forall e :: e in delivered ==> e.from == from
  {
    ghost var h := log.history;
    var at := log.GetIndex();
    delivered := [];
    ghost var done: seq<Step> := [];
    FollowedNothing(log, from, at);
    for i := 0 to |steps|
      invariant log.Valid() && Followed(log, from, at, h, done, delivered)
      invariant done == steps[..i]
    {
      at, delivered := FollowNext(log, from, steps[i], at, delivered, h, done);
      LongerPrefix(steps, i);
      done := done + [steps[i]];
    }
    assert done == steps;
    FollowedDelivered(log, from, at, h, done, delivered);
    DeliveredOnly(from, h, steps);
  }

  /** A follower of one sender gets entries of that sender only. */
  lemma DeliveredOnly(from: nat, h: seq<Entry>, steps: seq<Step>)
    ensures from != 0 ==> forall e :: e in Delivered(from, h, steps) ==> e.from == from
  {
    if from != 0 {
      var visits := VisitsOf(from, h, steps);
      GatheredOnly(from, h + Added(steps), visits, |h|, Reached(visits, |h|));
    }
  }

  lemma {:induction false} GatheredOnly(from: nat, h: seq<Entry>, visits: seq<Visit>, start: nat, position: nat)
    requires from != 0 && Run(visits, start, position, |h|)
    ensures forall e :: e in Gathered(from, h, visits, start, position) ==> e.from == from
  {
    if visits != [] {
      var (before, last) := (visits[..|visits| - 1], visits[|visits| - 1]);
      RunLonger(before, start, last.position, last.length, |h|);
      GatheredOnly(from, h, before, start, last.position);
      SelectedOnly(from, h[last.First()..last.reached]);
    }
  }

  lemma LongerPrefix(steps: seq<Step>, i: nat)
    requires i < |steps|
    ensures steps[..i] + [steps[i]] == steps[..i + 1]
  {
  }

  lemma FollowedNothing(log: Log, from: nat, at: int)
    requires log.Valid() && at == if log.history == [] then -1 else |log.history| % MAX_LOGS
    ensures Followed(log, from, at, log.history, [], [])
  {
    assert log.history + Added([]) == log.history;
  }

  lemma FollowedDelivered(log: Log, from: nat, at: int, h: seq<Entry>, done: seq<Step>, delivered: seq<Entry>)
    requires Followed(log, from, at, h, done, delivered)
    ensures log.history == h + Added(done) && delivered == Delivered(from, h, done)
  {
  }

  /** What was added up to where the follower stands. */
  function Behind(from: nat, h: seq<Entry>, steps: seq<Step>): seq<Entry> {
    var visits := VisitsOf(from, h, steps);
    RunLonger(visits, |h|, Reached(visits, |h|), |h + Added(steps)|, |h + Added(steps)|);
    (h + Added(steps))[|h|..Reached(visits, |h|)]
  }

  /** What was to be delivered: every selected entry of that, once and in order. */
  function Wanted(from: nat, h: seq<Entry>, steps: seq<Step>): seq<Entry> {
    Selected(from, Behind(from, h, steps))
  }

  /** It is delivered if and only if no call goes past a selected entry; to a follower of all
      senders, if and only if each call finds less than a full ring behind. */
  lemma FollowExact(from: nat, h: seq<Entry>, steps: seq<Step>)
    ensures var (after, visits) := (h + Added(steps), VisitsOf(from, h, steps));
            && (forall i :: 0 <= i < |visits| ==> visits[i].Sound() && visits[i].length <= |after|)
            && (Delivered(from, h, steps) == Wanted(from, h, steps) <==> NothingMissed(from, after, visits))
            && (from == FROM_NONE ==>
                  (Delivered(from, h, steps) == Wanted(from, h, steps) <==> InTime(visits)))
  {
    var (after, visits) := (h + Added(steps), VisitsOf(from, h, steps));
    GatheredComplete(from, after, visits, |h|, Reached(visits, |h|));
    if from == FROM_NONE {
      MissedOfAny(after, visits);
    }
  }

  /** Each call finds less than a full ring behind. */
  predicate InTime(visits: seq<Visit>) {
    forall i :: 0 <= i < |visits| ==> visits[i].length - visits[i].position < MAX_LOGS
  }

  // ----- followers that never stop early -----

  predicate AllAgree(steps: seq<Step>) {
    forall i :: 0 <= i < |steps| && steps[i].Tail? ==> false !in steps[i].agree
  }

  /** How many entries were added since the last call. */
  function Pending(steps: seq<Step>): (n: nat)
    ensures n <= |Added(steps)|
  {
    if steps == [] then 0
    else
      var last := steps[|steps| - 1];
      if last.Tail? then 0 else Pending(steps[..|steps| - 1]) + |AddedBy(last)|
  }

  /** Less than a full ring is added between any two calls. */
  predicate Timely(steps: seq<Step>) {
    steps == [] ||
    (&& Timely(steps[..|steps| - 1])
     && (steps[|steps| - 1].Tail? ==> Pending(steps[..|steps| - 1]) < MAX_LOGS))
  }

  lemma {:induction false} AgreeingVisits(from: nat, h: seq<Entry>, steps: seq<Step>)
    requires AllAgree(steps)
    ensures var visits := VisitsOf(from, h, steps);
            Reached(visits, |h|) == |h + Added(steps)| - Pending(steps) && (InTime(visits) <==> Timely(steps))
  {
    if steps != [] {
      var (before, last) := (steps[..|steps| - 1], steps[|steps| - 1]);
      AgreeingVisits(from, h, before);
      if last.Tail? {
        var (visits, after) := (VisitsOf(from, h, before), h + Added(before));
        var visit := VisitOf(from, after, Reached(visits, |h|), last.agree);
        assert last == steps[|steps| - 1] && false !in last.agree;
        LookedAll(from, after[visit.First()..], last.agree);
        InTimeNext(visits, visit);
        assert h + Added(steps) == after;
      }
    }
  }

  lemma InTimeNext(visits: seq<Visit>, visit: Visit)
    ensures InTime(visits + [visit]) <==> InTime(visits) && visit.length - visit.position < MAX_LOGS
  {
    var more := visits + [visit];
    assert more[|visits|] == visit && forall i :: 0 <= i < |visits| ==> more[i] == visits[i];
  }

  /** What was added up to the last call. */
  function AddedBefore(steps: seq<Step>): seq<Entry> {
    Added(steps)[..|Added(steps)| - Pending(steps)]
  }

  /** A follower that never stops early gets everything of its sender up to its last call, if less
      than a full ring is added between its calls; a follower of all senders, only then. */
  lemma DeliveredInTime(from: nat, h: seq<Entry>, steps: seq<Step>)
    requires AllAgree(steps)
    ensures Timely(steps) ==> Delivered(from, h, steps) == Selected(from, AddedBefore(steps))
    ensures Delivered(FROM_NONE, h, steps) == AddedBefore(steps) <==> Timely(steps)
  {
    AgreeingBehind(FROM_NONE, h, steps);
    FollowExact(FROM_NONE, h, steps);
    AgreeingVisits(FROM_NONE, h, steps);
    SelectedAll(AddedBefore(steps));
    AgreeingBehind(from, h, steps);
    FollowExact(from, h, steps);
    AgreeingVisits(from, h, steps);
    if Timely(steps) {
      NoneMissed(from, h + Added(steps), VisitsOf(from, h, steps));
    }
  }

  /** In terms of the sender each entry names: a timely follower of one sender that never stops
      early gets each of its entries as often as it was added before the last call, and no other. */
  lemma DeliveredOfSender(from: nat, h: seq<Entry>, steps: seq<Step>)
    requires AllAgree(steps) && Timely(steps) && from != 0
    ensures OnlyOf(from, Delivered(from, h, steps), AddedBefore(steps))
  {
    DeliveredInTime(from, h, steps);
    SelectedOnly(from, AddedBefore(steps));
  }

  lemma AgreeingBehind(from: nat, h: seq<Entry>, steps: seq<Step>)
    requires AllAgree(steps)
    ensures Behind(from, h, steps) == AddedBefore(steps)
  {
    AgreeingVisits(from, h, steps);
    BehindUpTo(from, h, steps, Pending(steps));
  }

  lemma BehindUpTo(from: nat, h: seq<Entry>, steps: seq<Step>, pending: nat)
    requires pending <= |Added(steps)| && Reached(VisitsOf(from, h, steps), |h|) == |h + Added(steps)| - pending
    ensures Behind(from, h, steps) == Added(steps)[..|Added(steps)| - pending]
  {
    BehindHistory(h, Added(steps), pending);
  }

  lemma BehindHistory(h: seq<Entry>, added: seq<Entry>, pending: nat)
    requires pending <= |added|
    ensures (h + added)[|h|..|h + added| - pending] == added[..|added| - pending]
  {
  }

  lemma NoneMissed(from: nat, h: seq<Entry>, visits: seq<Visit>)
    requires forall i :: 0 <= i < |visits| ==> visits[i].Sound() && visits[i].length <= |h|
    requires InTime(visits)
    ensures NothingMissed(from, h, visits)
  {
    forall i | 0 <= i < |visits| ensures Missed(from, h, visits[i]) == [] {
      var v := visits[i];
      FullRing(v.length - v.position);
      assert h[v.position..v.First()] == [];
    }
  }

  lemma MissedOfAny(h: seq<Entry>, visits: seq<Visit>)
    requires forall i :: 0 <= i < |visits| ==> visits[i].Sound() && visits[i].length <= |h|
    ensures NothingMissed(FROM_NONE, h, visits) <==> InTime(visits)
  {
    forall i | 0 <= i < |visits|
      ensures Missed(FROM_NONE, h, visits[i]) == [] <==> visits[i].length - visits[i].position < MAX_LOGS
    {
      MissedOfAll(h, visits[i]);
    }
  }

  /** Going over the whole log, which a negative start asks for, gives all of it if and only if
      less than a full ring was ever added. */
  method LoopAll(log: Log) returns (passed: seq<Entry>)
    requires log.Valid()
    ensures passed == log.history <==> |log.history| < 120
  {
    var at;
    ghost var visit;
    at, passed, visit := log.Loop(FROM_NONE, -1, [], 0);
    WholeLog(log.history);
  }

  lemma WholeLog(h: seq<Entry>)
    ensures Passed(FROM_NONE, h, VisitOf(FROM_NONE, h, 0, [])) == h <==> |h| < MAX_LOGS
  {
    var v := VisitOf(FROM_NONE, h, 0, []);
    LookedAll(FROM_NONE, h[v.First()..], []);
    SelectedAll(h[v.First()..v.reached]);
    FullRing(|h|);
    assert v.First() == 0 ==> h[0..|h|] == h;
  }

  method Fill(log: Log, count: nat, ghost at: int, ghost position: nat)
    requires log.Valid() && log.StandsFor(at, position)
    modifies log, log.log
    ensures log.Valid() && |log.history| == |old(log.history)| + count && log.StandsFor(at, position)
  {
    for i := 0 to count
      invariant log.Valid() && |log.history| == |old(log.history)| + i && log.StandsFor(at, position)
    {
      log.Put(Entry(1, 0, "more"));
    }
  }

  /** Adding at most 119 entries between two calls is not enough: a call stopped early leaves
      one of two entries, 119 more fill the ring, and the next call delivers none of the 120. */
  method StopEarlyThenFill() returns (log: Log, passed: seq<Entry>, ghost visit: Visit)
    ensures log.Valid() && visit.Sound() && visit.length == |log.history| == visit.position + MAX_LOGS
    ensures visit.reached == |log.history| && passed == [] == Passed(FROM_NONE, log.history, visit)
  {
    var at;
    log, at := OneOfTwo();
    Fill(log, 119, at, 1);
    at, passed, visit := TailOnce(log, FROM_NONE, at, [], [], 0, 1);
  }

  method OneOfTwo() returns (log: Log, at: int)
    ensures log.Valid() && fresh(log) && fresh(log.log) && |log.history| == 2 && log.StandsFor(at, 1)
  {
    log := new Log();
    log.Put(Entry(1, 0, "one"));
    log.Put(Entry(1, 0, "two"));
    var passed;
    ghost var visit;
    at, passed, visit := log.Loop(FROM_NONE, -1, [false], 0);
    FirstOnly(log.history);
  }

  lemma FirstOnly(h: seq<Entry>)
    requires |h| == 2
    ensures VisitOf(FROM_NONE, h, 0, [false]) == Visit(0, 2, 1)
  {
    assert h[0..] == h && !Says([false]);
  }
}
