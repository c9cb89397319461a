/**
 * The `Journal` of the Single Responsibility example: an in-memory list of
 * numbered text entries with a running counter that numbers them.
 *
 * `Snapshot` is the journal's state as a value, and `Added`, `Removed` and
 * `Rendered` say what `add_entry`, `remove_entry` and `__str__` do to it; the
 * class `Journal` holds the same two fields and updates them in place, each
 * method promising that its new state is the one these functions give.
 */
module Journals {
  import opened Wrappers
  import Decimal
  import Strings

  /** What stands between an entry's number and its text. */
  const Separator: string := ": "

  /** What `__str__` puts between entries. */
  const Newline: string := "\n"

  /** Python's `IndexError` from `del` with a position outside the list. */
  datatype Error = IndexError

  /** The journal's two fields: the entry strings and the next number to hand out. */
  datatype Snapshot = Snapshot(entries: seq<string>, count: nat)

  /** One call on a journal. */
  datatype Op = AddOp(text: string) | RemoveOp(pos: int)

  /** `Journal()`: no entries, counter at zero. */
  function Empty(): Snapshot {
    Snapshot([], 0)
  }

  /** The entry `f"{n}: {text}"`. */
  function FormatEntry(n: nat, text: string): string {
    Decimal.FromNat(n) + Separator + text
  }

  /** The number an entry string starts with, when it starts with digits followed by `": "`. */
  function EntryNumber(e: string): Option<nat> {
    var d := Decimal.LeadingDigits(e);
    if |d| > 0 && |d| + |Separator| <= |e| && e[|d|..|d| + |Separator|] == Separator
    then Some(Decimal.Value(d))
    else None
  }

  /** The text of an entry: what follows its number and `": "`, when it has them. */
  function EntryText(e: string): Option<string> {
    var d := Decimal.LeadingDigits(e);
    if |d| > 0 && |d| + |Separator| <= |e| && e[|d|..|d| + |Separator|] == Separator
    then Some(e[|d| + |Separator|..])
    else None
  }

  /**
   * Python's reading of a list position for `del xs[pos]` on a list of length n:
   * a negative position counts from the end; anything outside [-n, n) is an error.
   */
  function ResolveIndex(pos: int, n: nat): (r: Option<nat>)
    ensures r.Some? <==> -(n as int) <= pos < n
    ensures r.Some? ==> r.value < n && (r.value - pos) % n == 0
  {
    if pos < 0 then (if -(n as int) <= pos then Some(n + pos) else None)
    else if pos < n then Some(pos)
    else None
  }

  /** `add_entry(text)`. */
  function Added(s: Snapshot, text: string): Snapshot {
    Snapshot(s.entries + [FormatEntry(s.count, text)], s.count + 1)
  }

  /** `remove_entry(pos)`: the new state, or the error `del` raises. */
  function Removed(s: Snapshot, pos: int): Result<Snapshot, Error> {
    match ResolveIndex(pos, |s.entries|)
    case None => Err(IndexError)
    case Some(k) => Ok(Snapshot(s.entries[..k] + s.entries[k + 1..], s.count))
  }

  /** `__str__`. */
  function Rendered(s: Snapshot): string {
    Strings.Join(Newline, s.entries)
  }

  /** One operation; a failed removal raises and leaves the journal as it was. */
  function Step(s: Snapshot, op: Op): Snapshot {
    match op
    case AddOp(text) => Added(s, text)
    case RemoveOp(pos) =>
      match Removed(s, pos)
      case Ok(t) => t
      case Err(_) => s
  }

  /** A sequence of operations, applied in order. */
  function Run(s: Snapshot, ops: seq<Op>): Snapshot
    decreases |ops|
  {
    if ops == [] then s else Run(Step(s, ops[0]), ops[1..])
  }

  /** How many of the operations are additions. */
  function AddCount(ops: seq<Op>): nat {
    if ops == [] then 0 else (if ops[0].AddOp? then 1 else 0) + AddCount(ops[1..])
  }

  /**
   * The numbering invariant: every entry starts with its number, every number
   * is below the counter, and the numbers strictly increase along the list.
   */
  ghost predicate WellNumbered(s: Snapshot) {
    (forall i :: 0 <= i < |s.entries| ==>
      EntryNumber(s.entries[i]).Some? && EntryNumber(s.entries[i]).value < s.count) &&
    (forall i, j :: 0 <= i < j < |s.entries| ==>
      EntryNumber(s.entries[i]).value < EntryNumber(s.entries[j]).value)
  }

  // ---------------------------------------------------------------------------
  // Entries and their numbers

  /** The number of a formatted entry reads back as the number it was given, whatever the text. */
  lemma EntryNumberOfFormat(n: nat, text: string)
    ensures EntryNumber(FormatEntry(n, text)) == Some(n)
    ensures EntryText(FormatEntry(n, text)) == Some(text)
  {
    var d := Decimal.FromNat(n);
    var e := FormatEntry(n, text);
    assert e == d + (Separator + text);
    Decimal.LeadingDigitsOfDigitsThen(d, Separator + text);
    assert e[|d|..|d| + |Separator|] == Separator;
    Decimal.ValueOfFromNat(n);
  }

  /** A strictly increasing sequence of numbers all below b has at most b elements. */
  lemma {:induction false} IncreasingBelowBound(xs: seq<nat>, b: nat)
    requires forall i, j :: 0 <= i < j < |xs| ==> xs[i] < xs[j]
    requires forall i :: 0 <= i < |xs| ==> xs[i] < b
    ensures |xs| <= b
  {
    if xs != [] {
      var last := xs[|xs| - 1];
      IncreasingBelowBound(xs[..|xs| - 1], last);
    }
  }

  /** A well-numbered journal never holds more entries than numbers handed out. */
  lemma EntriesAtMostCount(s: Snapshot)
    requires WellNumbered(s)
    ensures |s.entries| <= s.count
  {
    var xs := seq(|s.entries|, i requires 0 <= i < |s.entries| => EntryNumber(s.entries[i]).value);
    IncreasingBelowBound(xs, s.count);
  }

  /** In a well-numbered journal no two entries carry the same number. */
  lemma NumbersDistinct(s: Snapshot, i: nat, j: nat)
    requires WellNumbered(s)
    requires i < |s.entries| && j < |s.entries| && i != j
    ensures EntryNumber(s.entries[i]) != EntryNumber(s.entries[j])
  {
    if i < j {
      assert EntryNumber(s.entries[i]).value < EntryNumber(s.entries[j]).value;
    } else {
      assert EntryNumber(s.entries[j]).value < EntryNumber(s.entries[i]).value;
    }
  }

  // ---------------------------------------------------------------------------
  // add_entry

  /**
   * Adding grows the list by one entry numbered with the old counter, keeps the
   * earlier entries, and moves the counter on by one.
   */
  lemma AddedEffect(s: Snapshot, text: string)
    ensures var t := Added(s, text);
      |t.entries| == |s.entries| + 1 &&
      t.entries[..|s.entries|] == s.entries &&
      EntryNumber(t.entries[|s.entries|]) == Some(s.count) &&
      EntryText(t.entries[|s.entries|]) == Some(text) &&
      t.count == s.count + 1
  {
    EntryNumberOfFormat(s.count, text);
    assert Added(s, text).entries[..|s.entries|] == s.entries;
  }

  /** Adding keeps the journal well numbered, and the new number is above every number already in it. */
  lemma AddedPreserves(s: Snapshot, text: string)
    requires WellNumbered(s)
    ensures WellNumbered(Added(s, text))
    ensures forall i :: 0 <= i < |s.entries| ==>
      EntryNumber(s.entries[i]).value < EntryNumber(Added(s, text).entries[|s.entries|]).value
  {
    EntryNumberOfFormat(s.count, text);
    var t := Added(s, text);
    assert forall i :: 0 <= i < |s.entries| ==> t.entries[i] == s.entries[i];
  }

  /** The rendering after an addition is the old rendering, a newline, and the new entry. */
  lemma RenderedAdded(s: Snapshot, text: string)
    ensures Rendered(Added(s, text)) ==
      if s.entries == [] then FormatEntry(s.count, text)
      else Rendered(s) + Newline + FormatEntry(s.count, text)
  {
    if s.entries != [] {
      Strings.JoinAppend(Newline, s.entries, FormatEntry(s.count, text));
    }
  }

  // ---------------------------------------------------------------------------
  // remove_entry

  /**
   * Removal succeeds exactly for positions in [-n, n); it then drops the one
   * entry at the resolved position, keeps the others in order and leaves the
   * counter alone.
   */
  lemma RemovedEffect(s: Snapshot, pos: int)
    ensures Removed(s, pos).Ok? <==> -|s.entries| <= pos < |s.entries|
    ensures Removed(s, pos).Ok? ==>
      var k := if pos < 0 then |s.entries| + pos else pos;
      var t := Removed(s, pos).value;
      |t.entries| == |s.entries| - 1 &&
      t.count == s.count &&
      (forall i :: 0 <= i < k ==> t.entries[i] == s.entries[i]) &&
      (forall i :: k <= i < |t.entries| ==> t.entries[i] == s.entries[i + 1]) &&
      multiset(t.entries) + multiset{s.entries[k]} == multiset(s.entries)
  {
    if Removed(s, pos).Ok? {
      var k := ResolveIndex(pos, |s.entries|).value;
      var e := s.entries;
      assert e == e[..k] + [e[k]] + e[k + 1..];
    }
  }

  /** Removal keeps the journal well numbered. */
  lemma RemovedPreserves(s: Snapshot, pos: int)
    requires WellNumbered(s)
    requires Removed(s, pos).Ok?
    ensures WellNumbered(Removed(s, pos).value)
  {
    var k := ResolveIndex(pos, |s.entries|).value;
    var t := Removed(s, pos).value;
    assert forall i :: 0 <= i < |t.entries| ==> t.entries[i] == s.entries[if i < k then i else i + 1];
  }

  // ---------------------------------------------------------------------------
  // Runs of operations

  /** Every run of operations keeps the journal well numbered. */
  lemma {:induction false} RunPreserves(s: Snapshot, ops: seq<Op>)
    requires WellNumbered(s)
    ensures WellNumbered(Run(s, ops))
    decreases |ops|
  {
    if ops != [] {
      match ops[0] {
        case AddOp(text) => AddedPreserves(s, text);
        case RemoveOp(pos) => if Removed(s, pos).Ok? { RemovedPreserves(s, pos); }
      }
      RunPreserves(Step(s, ops[0]), ops[1..]);
    }
  }

  /** The counter moves on by exactly the number of additions, so it never goes down. */
  lemma {:induction false} RunCount(s: Snapshot, ops: seq<Op>)
    ensures Run(s, ops).count == s.count + AddCount(ops)
    ensures Run(s, ops).count >= s.count
    decreases |ops|
  {
    if ops != [] {
      RunCount(Step(s, ops[0]), ops[1..]);
    }
  }

  /** From a fresh journal, any run of operations leaves at most as many entries as numbers handed out. */
  lemma FromEmptyAtMostCount(ops: seq<Op>)
    ensures |Run(Empty(), ops).entries| <= Run(Empty(), ops).count
  {
    RunPreserves(Empty(), ops);
    EntriesAtMostCount(Run(Empty(), ops));
  }

  // ---------------------------------------------------------------------------
  // __str__

  /** An empty journal renders as the empty string. */
  lemma RenderedEmpty(s: Snapshot)
    requires s.entries == []
    ensures Rendered(s) == ""
  {
  }

  /** A journal with one entry renders as that entry. */
  lemma RenderedSingle(s: Snapshot)
    requires |s.entries| == 1
    ensures Rendered(s) == s.entries[0]
  {
  }

  /** A non-empty rendering ends with the last entry: no newline follows it. */
  lemma RenderedEndsWithLast(s: Snapshot)
    requires |s.entries| > 0
    ensures var r := Rendered(s); var last := s.entries[|s.entries| - 1];
      |last| <= |r| && r[|r| - |last|..] == last
  {
    Strings.JoinEndsWithLast(Newline, s.entries);
  }

  /** When no entry contains a newline, splitting the rendering on newlines gives the entries back. */
  lemma RenderedSplits(s: Snapshot)
    requires |s.entries| > 0
    requires forall i :: 0 <= i < |s.entries| ==> '\n' !in s.entries[i]
    ensures Strings.Split(Rendered(s), '\n') == s.entries
  {
    Strings.SplitJoin(s.entries, '\n');
  }

  // ---------------------------------------------------------------------------
  // The class

  class Journal {
    var entries: seq<string>
    var count: nat

    /** The journal's fields as a value. */
    function State(): Snapshot
      reads this
    {
      Snapshot(entries, count)
    }

    /** The numbering invariant on the current fields. */
    ghost predicate Valid()
      reads this
    {
      WellNumbered(State())
    }

    constructor ()
      ensures entries == [] && count == 0
      ensures State() == Empty() && Valid()
    {
      entries := [];
      count := 0;
    }

    /** Appends `f"{count}: {text}"` and then increments the counter. */
    method AddEntry(text: string)
      modifies this
      ensures State() == Added(old(State()), text)
      ensures old(Valid()) ==> Valid()
    {
      ghost var before := State();
      entries := entries + [FormatEntry(count, text)];
      count := count + 1;
      if WellNumbered(before) {
        AddedPreserves(before, text);
      }
    }

    /**
     * `del entries[pos]`: a negative position counts from the end; a position
     * outside [-len, len) fails with IndexError and changes nothing.
     */
    method RemoveEntry(pos: int) returns (outcome: Outcome<Error>)
      modifies this
      ensures outcome.Pass? <==> Removed(old(State()), pos).Ok?
      ensures outcome.Pass? ==> State() == Removed(old(State()), pos).value
      ensures outcome.Fail? ==> outcome.error == IndexError && State() == old(State())
      ensures old(Valid()) ==> Valid()
    {
      ghost var before := State();
      var n := |entries|;
      var k := pos;
      if k < 0 {
        k := k + n;
      }
      if k < 0 || k >= n {
        return Fail(IndexError);
      }
      entries := entries[..k] + entries[k + 1..];
      outcome := Pass;
      if WellNumbered(before) {
        RemovedPreserves(before, pos);
      }
    }

    /** `__str__`: the entries joined by newlines. */
    function ToString(): (s: string)
      reads this
      ensures entries == [] ==> s == ""
      ensures |entries| == 1 ==> s == entries[0]
    {
      Rendered(State())
    }
  }

  /** The example run on values: two entries added to a fresh journal, then rendered. */
  lemma ExampleRendering()
    ensures Rendered(Added(Added(Empty(), "I cried today."), "I ate a bug.")) ==
      "0: I cried today.\n1: I ate a bug."
  {
    assert Decimal.FromNat(0) == "0" && Decimal.FromNat(1) == "1";
    var e0 := FormatEntry(0, "I cried today.");
    var e1 := FormatEntry(1, "I ate a bug.");
    assert e0 == "0: I cried today." && e1 == "1: I ate a bug.";
    assert Added(Added(Empty(), "I cried today."), "I ate a bug.").entries == [e0, e1];
    assert Strings.Join(Newline, [e0, e1]) == e0 + Newline + e1;
  }

  /** The same run on a `Journal` object. */
  method Example() returns (rendering: string)
    ensures rendering == "0: I cried today.\n1: I ate a bug."
  {
    var j := new Journal();
    j.AddEntry("I cried today.");
    j.AddEntry("I ate a bug.");
    rendering := j.ToString();
    ExampleRendering();
  }
}
