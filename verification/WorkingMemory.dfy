/** A bounded window over cumulative transcripts, with overflow handed to a summariser. */
module WorkingMemory {
  import opened Wrappers
  import opened Texts
  import opened Sequences

  // ----- Transcripts -----

  datatype Role = System | User | Assistant | Tool

  datatype Part = TextPart(text: Text) | OtherPart

  datatype Message = Message(role: Role, parts: seq<Part>)

  datatype Incoming = Incoming(role: Role, text: Text)

  datatype Stored = Stored(number: nat, role: Role, text: Text)

  /** White space and line terminators, the units `trim` removes. */
  predicate IsSpace(u: CodeUnit) {
    || 0x09 <= u <= 0x0D || u == 0x20 || u == 0xA0 || u == 0x1680 || 0x2000 <= u <= 0x200A
    || u == 0x2028 || u == 0x2029 || u == 0x202F || u == 0x205F || u == 0x3000 || u == 0xFEFF
  }

  function TrimStart(text: Text): Text {
    if text != [] && IsSpace(text[0]) then TrimStart(text[1..]) else text
  }

  function TrimEnd(text: Text): Text {
    if text != [] && IsSpace(text[|text| - 1]) then TrimEnd(text[..|text| - 1]) else text
  }

  function TextOf(parts: seq<Part>): Text {
    if parts == [] then [] else (if parts[0].TextPart? then parts[0].text else []) + TextOf(parts[1..])
  }

  function NormalizeOne(message: Message): seq<Incoming> {
    if message.role != User && message.role != Assistant then []
    else
      var text := TrimEnd(TrimStart(TextOf(message.parts)));
      if text == [] then [] else [Incoming(message.role, text)]
  }

  /** The user and assistant messages with text, trimmed. */
  function Normalize(prompt: seq<Message>): seq<Incoming> {
    if prompt == [] then [] else NormalizeOne(prompt[0]) + Normalize(prompt[1..])
  }

  lemma {:induction false} NormalizeConcat(a: seq<Message>, b: seq<Message>)
    ensures Normalize(a + b) == Normalize(a) + Normalize(b)
  {
    if a == [] {
      assert a + b == b;
    } else {
      NormalizeConcat(a[1..], b);
      assert a == [a[0]] + a[1..] && a + b == [a[0]] + (a[1..] + b);
      NormalizeCons(a[0], a[1..]);
      NormalizeCons(a[0], a[1..] + b);
      ConcatAssociates(NormalizeOne(a[0]), Normalize(a[1..]), Normalize(b));
    }
  }

  lemma NormalizeCons(message: Message, rest: seq<Message>)
    ensures Normalize([message] + rest) == NormalizeOne(message) + Normalize(rest)
  {
    assert ([message] + rest)[1..] == rest;
  }

  // ----- Where to append -----

  predicate SameItem(stored: Stored, incoming: Incoming) {
    stored.role == incoming.role && stored.text == incoming.text
  }

  /** The retained items stand in the transcript from `start` on. */
  predicate MatchesAt(recent: seq<Stored>, incoming: seq<Incoming>, start: nat) {
    start + |recent| <= |incoming| && forall i :: 0 <= i < |recent| ==> SameItem(recent[i], incoming[start + i])
  }

  datatype Window = Window(recent: seq<Stored>, counter: nat)

  /** The cursor holds while the retained tail still matches the transcript just before the counter. */
  function CursorPoint(window: Window, incoming: seq<Incoming>): Option<nat> {
    if window.recent == [] || window.counter < |window.recent| || window.counter > |incoming| then None
    else if MatchesAt(window.recent, incoming, window.counter - |window.recent|) then Some(window.counter)
    else None
  }

  method CursorStart(window: Window, incoming: seq<Incoming>) returns (start: Option<nat>)
    ensures start == CursorPoint(window, incoming)
  {
    var recent, counter := window.recent, window.counter;
    if recent == [] || counter < |recent| || counter > |incoming| {
      return None;
    }
    var from := counter - |recent|;
    for index := 0 to |recent|
      invariant forall i :: 0 <= i < index ==> SameItem(recent[i], incoming[from + i])
    {
      if !SameItem(recent[index], incoming[from + index]) {
        return None;
      }
    }
    start := Some(counter);
  }

  /** The end of the last occurrence of the retained items at or before `from`, else the beginning. */
  function LastMatch(recent: seq<Stored>, incoming: seq<Incoming>, from: nat): nat {
    if MatchesAt(recent, incoming, from) then from + |recent|
    else if from == 0 then 0
    else LastMatch(recent, incoming, from - 1)
  }

  function AppendPoint(recent: seq<Stored>, incoming: seq<Incoming>): nat {
    if recent == [] || |recent| > |incoming| then 0
    else LastMatch(recent, incoming, |incoming| - |recent|)
  }

  method AppendStart(recent: seq<Stored>, incoming: seq<Incoming>) returns (point: nat)
    ensures point == AppendPoint(recent, incoming)
  {
    if recent == [] {
      return 0;
    }
    var start: int := if |incoming| < |recent| then 0 else |incoming| - |recent|;
    while start >= 0
      invariant -1 <= start <= (if |incoming| < |recent| then 0 else |incoming| - |recent|)
      invariant |recent| <= |incoming| ==>
                  AppendPoint(recent, incoming) == if start < 0 then 0 else LastMatch(recent, incoming, start)
      decreases start
    {
      if start + |recent| > |incoming| {
        start := start - 1;
        continue;
      }
      var matches := true;
      var offset := 0;
      while offset < |recent| && matches
        invariant 0 <= offset <= |recent|
        invariant matches ==> forall i :: 0 <= i < offset ==> SameItem(recent[i], incoming[start + i])
        invariant !matches ==> !MatchesAt(recent, incoming, start)
        decreases |recent| - offset, matches
      {
        if SameItem(recent[offset], incoming[start + offset]) {
          offset := offset + 1;
        } else {
          matches := false;
        }
      }
      if matches {
        return start + |recent|;
      }
      start := start - 1;
    }
    point := 0;
  }

  /** Appending resumes after the last occurrence of the retained items, from the beginning without one. */
  lemma {:induction false} LastMatchMeaning(recent: seq<Stored>, incoming: seq<Incoming>, from: nat)
    requires recent != []
    ensures var r := LastMatch(recent, incoming, from);
            if r == 0 then forall start :: 0 <= start <= from ==> !MatchesAt(recent, incoming, start)
            else && |recent| <= r <= from + |recent| && MatchesAt(recent, incoming, r - |recent|)
                 && forall start :: r - |recent| < start <= from ==> !MatchesAt(recent, incoming, start)
  {
    if !MatchesAt(recent, incoming, from) && from > 0 {
      LastMatchMeaning(recent, incoming, from - 1);
    }
  }

  lemma AppendMeaning(recent: seq<Stored>, incoming: seq<Incoming>)
    requires recent != []
    ensures var r := AppendPoint(recent, incoming);
            if r == 0 then forall start: nat :: !MatchesAt(recent, incoming, start)
            else && |recent| <= r <= |incoming| && MatchesAt(recent, incoming, r - |recent|)
                 && forall start: nat :: start > r - |recent| ==> !MatchesAt(recent, incoming, start)
  {
    if |recent| <= |incoming| {
      LastMatchMeaning(recent, incoming, |incoming| - |recent|);
    }
  }

  // ----- One remember -----

  /** The items numbered on from `counter`. */
  function Numbered(items: seq<Incoming>, counter: nat): (stored: seq<Stored>)
    ensures |stored| == |items|
    ensures forall i :: 0 <= i < |items| ==> stored[i] == Stored(counter + i + 1, items[i].role, items[i].text)
  {
    if items == [] then []
    else [Stored(counter + 1, items[0].role, items[0].text)] + Numbered(items[1..], counter + 1)
  }

  datatype Trimmed = Trimmed(overflow: seq<Stored>, recent: seq<Stored>)

  function TrimToWindow(items: seq<Stored>, max: nat): Trimmed {
    if |items| <= max then Trimmed([], items)
    else if max == 0 then Trimmed(items, [])
    else Trimmed(items[..|items| - max], items[|items| - max..])
  }

  datatype Shifted = Shifted(window: Window, overflow: seq<Stored>)

  function StartOf(window: Window, incoming: seq<Incoming>): (start: nat)
    ensures start <= |incoming|
  {
    match CursorPoint(window, incoming)
    case Some(point) => point
    case None =>
      if window.recent != [] then AppendMeaning(window.recent, incoming); AppendPoint(window.recent, incoming)
      else 0
  }

  /** What one transcript does to a window. */
  function Shift(window: Window, incoming: seq<Incoming>, max: nat): Shifted {
    var appended := incoming[StartOf(window, incoming)..];
    if appended == [] then Shifted(window, [])
    else
      var trimmed := TrimToWindow(window.recent + Numbered(appended, window.counter), max);
      Shifted(Window(trimmed.recent, window.counter + |appended|), trimmed.overflow)
  }

  lemma AppendsAs(window: Window, incoming: seq<Incoming>, max: nat)
    requires incoming[StartOf(window, incoming)..] != []
    ensures var appended := incoming[StartOf(window, incoming)..];
            var trimmed := TrimToWindow(window.recent + Numbered(appended, window.counter), max);
            Shift(window, incoming, max) == Shifted(Window(trimmed.recent, window.counter + |appended|), trimmed.overflow)
  {
  }

  // ----- The store -----

  datatype Key = Key(agent: Text, subject: Text)

  datatype KeyState = KeyState(summary: Option<Text>, window: Window)

  const NEW := KeyState(None, Window([], 0))

  datatype MemoryError = Unsupported | SummaryFailed

  /** The summariser's answer for one overflow, if it is asked. */
  datatype Summary = Kept | Updated(summary: Option<Text>) | Failing

  /** The state after one transcript; `summary` answers for the summariser, `Kept` where there is none. */
  function Remembered(state: KeyState, incoming: seq<Incoming>, max: nat, summary: Summary): Result<KeyState, MemoryError> {
    var shifted := Shift(state.window, incoming, max);
    if shifted.overflow == [] || summary.Kept? then Ok(state.(window := shifted.window))
    else if summary.Failing? then Err(SummaryFailed)
    else Ok(KeyState(summary.summary, shifted.window))
  }

  function StateOf(states: map<Key, KeyState>, key: Key): KeyState {
    if key in states then states[key] else NEW
  }

  method FindStart(window: Window, incoming: seq<Incoming>) returns (start: nat)
    ensures start == StartOf(window, incoming)
  {
    var cursor := CursorStart(window, incoming);
    if cursor.Some? {
      start := cursor.value;
    } else {
      start := AppendStart(window.recent, incoming);
    }
  }

  method NumberItems(items: seq<Incoming>, from: nat) returns (stored: seq<Stored>, counter: nat)
    ensures stored == Numbered(items, from) && counter == from + |items|
  {
    counter := from;
    stored := [];
    for i := 0 to |items|
      invariant counter == from + i && |stored| == i
      invariant forall k :: 0 <= k < i ==> stored[k] == Stored(from + k + 1, items[k].role, items[k].text)
    {
      counter := counter + 1;
      stored := stored + [Stored(counter, items[i].role, items[i].text)];
    }
    assert stored == Numbered(items, from);
  }

  method DropItem(recent: seq<Stored>, item: Option<nat>) returns (kept: seq<Stored>)
    ensures kept == WithoutItem(recent, item)
  {
    kept := [];
    for i := 0 to |recent|
      invariant kept + WithoutItem(recent[i..], item) == WithoutItem(recent, item)
    {
      var stored := recent[i];
      assert recent[i..] == [stored] + recent[i + 1..];
      WithoutItemCons(stored, recent[i + 1..], item);
      if item != Some(stored.number) {
        ConcatAssociates(kept, [stored], WithoutItem(recent[i + 1..], item));
        kept := kept + [stored];
      }
    }
    assert recent[|recent|..] == [];
  }

  class MemoryStore {
    var states: map<Key, KeyState>
    const max: nat

    constructor (max: nat)
      ensures states == map[] && this.max == max
    {
      states := map[];
      this.max := max;
    }

    /** A refused or failed remember changes nothing; a good one changes its own key only. */
    method Remember(key: Key, transcript: seq<Message>, versioned: bool, summary: Summary)
      returns (failure: Option<MemoryError>)
      modifies this
      ensures versioned ==> failure == Some(Unsupported) && states == old(states)
      ensures !versioned ==>
                match Remembered(StateOf(old(states), key), Normalize(transcript), max, summary)
                case Err(e) => failure == Some(e) && states == old(states)
                case Ok(next) => failure.None? && StateOf(states, key) == next
                                 && forall other :: other != key ==> StateOf(states, other) == StateOf(old(states), other)
      ensures !versioned ==> RememberedAs(StateOf(old(states), key), Normalize(transcript), max, summary, failure, StateOf(states, key))
    {
      RememberedExactly(StateOf(states, key), Normalize(transcript), max, summary);
      if versioned {
        return Some(Unsupported);
      }
      var incoming := Normalize(transcript);
      if incoming == [] {
        EmptyTranscript(StateOf(states, key), max, summary);
        return None;
      }
      var existing := StateOf(states, key);
      var start := FindStart(existing.window, incoming);
      var appended := incoming[start..];
      if appended == [] {
        return None;
      }
      AppendsAs(existing.window, incoming, max);
      var stored, counter := NumberItems(appended, existing.window.counter);
      var trimmed := TrimToWindow(existing.window.recent + stored, max);
      var text := existing.summary;
      if trimmed.overflow != [] && !summary.Kept? {
        if summary.Failing? {
          return Some(SummaryFailed);
        }
        text := summary.summary;
      }
      states := states[key := KeyState(text, Window(trimmed.recent, counter))];
      failure := None;
    }

    /** Forget a whole key, its summary, or one retained item. */
    method Forget(key: Key, item: Option<nat>, summaryToo: bool)
      modifies this
      ensures states == Forgotten(old(states), key, item, summaryToo)
    {
      if item.None? && !summaryToo {
        states := states - {key};
        return;
      }
      if key !in states {
        return;
      }
      var existing := states[key];
      var summary := if summaryToo then None else existing.summary;
      var recent := DropItem(existing.window.recent, item);
      if summary.None? && recent == [] {
        states := states - {key};
      } else {
        states := states[key := KeyState(summary, Window(recent, existing.window.counter))];
      }
    }
  }

  /** The items other than the named one, in order. */
  function WithoutItem(recent: seq<Stored>, item: Option<nat>): seq<Stored> {
    if recent == [] then []
    else (if item == Some(recent[0].number) then [] else [recent[0]]) + WithoutItem(recent[1..], item)
  }

  lemma WithoutItemCons(first: Stored, rest: seq<Stored>, item: Option<nat>)
    ensures WithoutItem([first] + rest, item) == (if item == Some(first.number) then [] else [first]) + WithoutItem(rest, item)
  {
    assert ([first] + rest)[1..] == rest;
  }

  /** `item` names a retained item; `summary` the summary; with neither the key goes altogether. */
  function Forgotten(states: map<Key, KeyState>, key: Key, item: Option<nat>, summary: bool): map<Key, KeyState> {
    if key !in states then states
    else if item.None? && !summary then states - {key}
    else
      var state := states[key];
      var text := if summary then None else state.summary;
      var recent := WithoutItem(state.window.recent, item);
      if text.None? && recent == [] then states - {key}
      else states[key := KeyState(text, state.window.(recent := recent))]
  }

  /** Numbered upwards, as every run leaves them. */
  ghost predicate Rising(items: seq<Stored>) {
    forall i, j :: 0 <= i < j < |items| ==> items[i].number < items[j].number
  }

  lemma {:induction false} WithoutItemMembers(recent: seq<Stored>, item: Option<nat>)
    ensures forall i :: i in WithoutItem(recent, item) <==> i in recent && item != Some(i.number)
    ensures Rising(recent) ==> Rising(WithoutItem(recent, item))
  {
    if recent != [] {
      assert forall i :: 0 <= i < |recent[1..]| ==> recent[1..][i] == recent[i + 1];
      WithoutItemMembers(recent[1..], item);
      assert forall i :: i in recent <==> i == recent[0] || i in recent[1..];
    }
  }

  /**
   * Forgetting removes the named item or the summary and nothing else, never moves the counter, touches no
   * other key, and drops the key exactly when it has neither a summary nor an item left or is named as a whole.
   */
  lemma ForgetEffect(states: map<Key, KeyState>, key: Key, item: Option<nat>, summary: bool)
    ensures var after := Forgotten(states, key, item, summary);
            && (forall other :: other != key ==> (other in after <==> other in states)
                                                 && (other in states ==> after[other] == states[other]))
            && (key in after <==>
                  && key in states && (item.Some? || summary)
                  && ((!summary && states[key].summary.Some?)
                      || exists i :: i in states[key].window.recent && item != Some(i.number)))
            && (key in after ==>
                  && after[key].window.counter == states[key].window.counter
                  && after[key].summary == (if summary then None else states[key].summary)
                  && (Rising(states[key].window.recent) ==> Rising(after[key].window.recent))
                  && forall i :: i in after[key].window.recent <==> i in states[key].window.recent && item != Some(i.number))
  {
    if key in states {
      var kept := WithoutItem(states[key].window.recent, item);
      WithoutItemMembers(states[key].window.recent, item);
      assert kept != [] ==> kept[0] in kept;
    }
  }

  lemma EmptyTranscript(state: KeyState, max: nat, summary: Summary)
    ensures Remembered(state, [], max, summary) == Ok(state)
  {
  }

  // ----- Runs over cumulative transcripts -----

  /** Each transcript continues the one before. */
  ghost predicate Cumulative(transcripts: seq<seq<Incoming>>) {
    forall i, j :: 0 <= i <= j < |transcripts| ==> transcripts[i] <= transcripts[j]
  }

  /** The window after a run, and everything that overflowed on the way, in order. */
  function After(transcripts: seq<seq<Incoming>>, max: nat): Shifted {
    if transcripts == [] then Shifted(Window([], 0), [])
    else
      var before := After(transcripts[..|transcripts| - 1], max);
      var last := Shift(before.window, transcripts[|transcripts| - 1], max);
      Shifted(last.window, before.overflow + last.overflow)
  }

  function Whole(transcripts: seq<seq<Incoming>>): seq<Incoming> {
    if transcripts == [] then [] else transcripts[|transcripts| - 1]
  }

  /** Nothing lost, nothing twice: overflow and window are the transcript, the window its longest allowed suffix. */
  ghost predicate Tracks(state: Shifted, transcript: seq<Incoming>, max: nat) {
    && state.overflow + state.window.recent == Numbered(transcript, 0)
    && state.window.counter == |transcript|
    && |state.window.recent| == Min(max, |transcript|)
  }

  lemma {:induction false} TrackedCursor(state: Shifted, transcript: seq<Incoming>, longer: seq<Incoming>, max: nat)
    requires Tracks(state, transcript, max) && transcript <= longer && max >= 1
    ensures StartOf(state.window, longer) == |transcript|
  {
    var recent, dropped := state.window.recent, |state.overflow|;
    if recent != [] {
      assert |Numbered(transcript, 0)| == |transcript| == dropped + |recent|;
      forall i | 0 <= i < |recent|
        ensures SameItem(recent[i], longer[dropped + i])
      {
        assert recent[i] == (state.overflow + recent)[dropped + i] == Numbered(transcript, 0)[dropped + i];
        assert longer[dropped + i] == transcript[dropped + i];
      }
      assert MatchesAt(recent, longer, |transcript| - |recent|);
    }
  }

  lemma NumberedConcat(a: seq<Incoming>, b: seq<Incoming>)
    ensures Numbered(a + b, 0) == Numbered(a, 0) + Numbered(b, |a|)
  {
  }

  lemma {:induction false} TracksOn(state: Shifted, transcript: seq<Incoming>, longer: seq<Incoming>, max: nat)
    requires Tracks(state, transcript, max) && transcript <= longer && max >= 1
    ensures var last := Shift(state.window, longer, max);
            Tracks(Shifted(last.window, state.overflow + last.overflow), longer, max)
  {
    TrackedCursor(state, transcript, longer, max);
    var appended := longer[|transcript|..];
    assert longer == transcript + appended;
    if appended == [] {
      assert longer == transcript && state.overflow + [] == state.overflow;
    } else {
      TracksMore(state, transcript, appended, max);
    }
  }

  lemma {:induction false} TracksMore(state: Shifted, transcript: seq<Incoming>, appended: seq<Incoming>, max: nat)
    requires Tracks(state, transcript, max) && max >= 1
    ensures var trimmed := TrimToWindow(state.window.recent + Numbered(appended, |transcript|), max);
            Tracks(Shifted(Window(trimmed.recent, |transcript| + |appended|), state.overflow + trimmed.overflow),
                   transcript + appended, max)
  {
    NumberedConcat(transcript, appended);
    TrimSplits(state.overflow, state.window.recent, Numbered(appended, |transcript|), max);
  }

  /** Trimming moves items from the window to the overflow and drops none. */
  lemma TrimSplits(overflow: seq<Stored>, recent: seq<Stored>, more: seq<Stored>, max: nat)
    ensures var trimmed := TrimToWindow(recent + more, max);
            && overflow + trimmed.overflow + trimmed.recent == overflow + recent + more
            && |trimmed.recent| == Min(max, |recent| + |more|)
  {
    var combined := recent + more;
    var trimmed := TrimToWindow(combined, max);
    assert trimmed.overflow + trimmed.recent == combined;
    assert overflow + trimmed.overflow + trimmed.recent == overflow + combined;
    assert overflow + recent + more == overflow + combined;
  }

  /**
   * With room for at least one message, every run over cumulative transcripts keeps the overflow followed
   * by the window equal to the whole transcript, numbered in order, the counter its length and the window
   * its longest allowed suffix.
   */
  lemma {:induction false} WindowExact(transcripts: seq<seq<Incoming>>, max: nat)
    requires Cumulative(transcripts) && max >= 1
    ensures Tracks(After(transcripts, max), Whole(transcripts), max)
  {
    if transcripts != [] {
      var init := transcripts[..|transcripts| - 1];
      WindowExact(init, max);
      if init != [] {
        assert init[|init| - 1] == transcripts[|transcripts| - 2];
      }
      TracksOn(After(init, max), Whole(init), transcripts[|transcripts| - 1], max);
    }
  }

  /** Remembering the same transcript again changes nothing. */
  lemma {:induction false} RepeatChangesNothing(transcripts: seq<seq<Incoming>>, max: nat)
    requires Cumulative(transcripts) && max >= 1
    ensures Shift(After(transcripts, max).window, Whole(transcripts), max) == Shifted(After(transcripts, max).window, [])
  {
    WindowExact(transcripts, max);
    TrackedCursor(After(transcripts, max), Whole(transcripts), Whole(transcripts), max);
  }

  /** Without room the same message is taken in again and again, so exactness holds if and only if there is room. */
  lemma {:induction false} WindowExactIffRoom(max: nat)
    ensures (forall transcripts :: Cumulative(transcripts) ==> Tracks(After(transcripts, max), Whole(transcripts), max))
            <==> max >= 1
  {
    if max >= 1 {
      forall transcripts | Cumulative(transcripts) {
        WindowExact(transcripts, max);
      }
    } else {
      var said := [Incoming(User, [0x68, 0x69])];
      var once, twice := [said], [said, said];
      assert Cumulative(twice);
      assert twice[..1] == once && once[..0] == [];
      assert After(once, 0).window == Window([], 1);
      assert After(twice, 0).window.counter == 2;
      assert !Tracks(After(twice, 0), Whole(twice), 0);
    }
  }

  /** Prompts that continue one another normalise to transcripts that do. */
  lemma CumulativePrompts(prompts: seq<seq<Message>>, transcripts: seq<seq<Incoming>>)
    requires |transcripts| == |prompts| && forall i :: 0 <= i < |prompts| ==> transcripts[i] == Normalize(prompts[i])
    requires forall i, j :: 0 <= i <= j < |prompts| ==> prompts[i] <= prompts[j]
    ensures Cumulative(transcripts)
  {
    forall i, j | 0 <= i <= j < |transcripts|
      ensures transcripts[i] <= transcripts[j]
    {
      var n := |prompts[i]|;
      assert prompts[j] == prompts[i] + prompts[j][n..];
      NormalizeConcat(prompts[i], prompts[j][n..]);
    }
  }

  // ----- In plain terms -----

  /** The units `trim` removes: white space and line terminators, each by its code point. */
  lemma SpaceUnits(u: CodeUnit)
    ensures IsSpace(u) <==>
            u in {9, 10, 11, 12, 13, 32, 160, 5760, 8192, 8193, 8194, 8195, 8196, 8197, 8198, 8199, 8200, 8201, 8202,
                  8232, 8233, 8239, 8287, 12288, 65279}
  {
  }

  ghost predicate Blank(text: Text) {
    forall u :: u in text ==> IsSpace(u)
  }

  ghost predicate TrimsAt(text: Text, i: nat, j: nat) {
    && i <= j <= |text| && Blank(text[..i]) && Blank(text[j..])
    && (i < j ==> !IsSpace(text[i]) && !IsSpace(text[j - 1]))
  }

  /** What is left between the white space at both ends. */
  ghost predicate TrimsTo(text: Text, trimmed: Text) {
    exists i: nat, j: nat :: TrimsAt(text, i, j) && trimmed == text[i..j]
  }

  lemma {:induction false} TrimStartMeaning(text: Text)
    ensures var n := |text| - |TrimStart(text)|;
            0 <= n <= |text| && TrimStart(text) == text[n..] && Blank(text[..n])
            && (n < |text| ==> !IsSpace(text[n]))
  {
    if text != [] && IsSpace(text[0]) {
      TrimStartMeaning(text[1..]);
      var n := |text| - |TrimStart(text)|;
      assert text[..n] == [text[0]] + text[1..][..n - 1];
    }
  }

  lemma {:induction false} TrimEndMeaning(text: Text)
    ensures var n := |TrimEnd(text)|;
            n <= |text| && TrimEnd(text) == text[..n] && Blank(text[n..]) && (n > 0 ==> !IsSpace(text[n - 1]))
  {
    if text != [] && IsSpace(text[|text| - 1]) {
      TrimEndMeaning(text[..|text| - 1]);
      var n := |TrimEnd(text)|;
      assert text[n..] == text[..|text| - 1][n..] + [text[|text| - 1]];
    }
  }

  lemma TrimMeaning(text: Text)
    ensures TrimsTo(text, TrimEnd(TrimStart(text)))
  {
    var front := TrimStart(text);
    var i, n := |text| - |front|, |TrimEnd(front)|;
    TrimStartMeaning(text);
    TrimEndMeaning(front);
    assert text[i + n..] == front[n..] && text[i..i + n] == front[..n];
    assert TrimsAt(text, i, i + n);
  }

  /** A message's text is that of its text parts, joined in order. */
  lemma {:induction false} TextJoins(a: seq<Part>, b: seq<Part>, part: Part)
    ensures TextOf(a + b) == TextOf(a) + TextOf(b)
    ensures TextOf([part]) == match part
                              case TextPart(text) => text
                              case OtherPart => []
  {
    if a == [] {
      assert a + b == b;
    } else {
      assert (a + b)[1..] == a[1..] + b;
      TextJoins(a[1..], b, part);
    }
  }

  /** A user's or assistant's message with its text trimmed, which is not empty. */
  ghost predicate TakenAs(message: Message, item: Incoming) {
    && (message.role == User || message.role == Assistant) && item.role == message.role
    && item.text != [] && TrimsTo(TextOf(message.parts), item.text)
  }

  /** A message of another role, or without text. */
  ghost predicate LeftOut(message: Message) {
    message.role == System || message.role == Tool || Blank(TextOf(message.parts))
  }

  /** The places of the messages taken, ascending; every other message is left out. */
  ghost predicate Picks(prompt: seq<Message>, incoming: seq<Incoming>, places: seq<nat>) {
    && |places| == |incoming|
    && (forall i, j :: 0 <= i < j < |places| ==> places[i] < places[j])
    && (forall i :: 0 <= i < |places| ==> places[i] < |prompt| && TakenAs(prompt[places[i]], incoming[i]))
    && (forall p :: 0 <= p < |prompt| && p !in places ==> LeftOut(prompt[p]))
  }

  lemma TakenOne(message: Message)
    ensures NormalizeOne(message) == [] ==> LeftOut(message)
    ensures NormalizeOne(message) != [] ==> |NormalizeOne(message)| == 1 && TakenAs(message, NormalizeOne(message)[0])
  {
    var text := TextOf(message.parts);
    TrimMeaning(text);
    if TrimEnd(TrimStart(text)) == [] {
      var i: nat, j: nat :| TrimsAt(text, i, j) && [] == text[i..j];
      assert text == text[..i] + text[j..];
    }
  }

  lemma PicksMore(prompt: seq<Message>, incoming: seq<Incoming>, places: seq<nat>, message: Message)
    requires Picks(prompt, incoming, places)
    ensures NormalizeOne(message) == [] ==> Picks(prompt + [message], incoming, places)
    ensures NormalizeOne(message) != [] ==> Picks(prompt + [message], incoming + NormalizeOne(message), places + [|prompt|])
  {
    TakenOne(message);
    var more := places + [|prompt|];
    assert forall p :: p in more <==> p in places || p == |prompt|;
  }

  /** A transcript is, in order, each user's and assistant's message with text in it, trimmed, and nothing else. */
  lemma {:induction false} NormalizeMeaning(prompt: seq<Message>) returns (places: seq<nat>)
    ensures Picks(prompt, Normalize(prompt), places)
    decreases |prompt|
  {
    if prompt == [] {
      places := [];
    } else {
      var init, last := prompt[..|prompt| - 1], prompt[|prompt| - 1];
      assert prompt == init + [last];
      var earlier := NormalizeMeaning(init);
      NormalizeConcat(init, [last]);
      NormalizeOnly(last);
      PicksMore(init, Normalize(init), earlier, last);
      places := if NormalizeOne(last) == [] then earlier else earlier + [|init|];
    }
  }

  lemma NormalizeOnly(message: Message)
    ensures Normalize([message]) == NormalizeOne(message)
  {
    assert [message] == [message] + [];
    NormalizeCons(message, []);
    assert NormalizeOne(message) + [] == NormalizeOne(message);
  }

  /** The retained items stand in the transcript from here on, the same in role and text. */
  ghost predicate StandsAt(recent: seq<Stored>, incoming: seq<Incoming>, start: int) {
    && 0 <= start <= |incoming| - |recent|
    && forall i :: 0 <= i < |recent| ==> recent[i].role == incoming[start + i].role && recent[i].text == incoming[start + i].text
  }

  lemma StandsMatches(recent: seq<Stored>, incoming: seq<Incoming>, start: nat)
    ensures StandsAt(recent, incoming, start) <==> MatchesAt(recent, incoming, start)
  {
  }

  /** What follows the retained items: after the counter if they stand just before it, else after their last occurrence. */
  ghost predicate ResumesAt(window: Window, incoming: seq<Incoming>, start: nat) {
    var recent, counter := window.recent, window.counter;
    if recent == [] then start == 0
    else if counter <= |incoming| && StandsAt(recent, incoming, counter - |recent|) then start == counter
    else if exists at :: StandsAt(recent, incoming, at) then
      && StandsAt(recent, incoming, start - |recent|)
      && forall at :: StandsAt(recent, incoming, at) ==> at <= start - |recent|
    else start == 0
  }

  lemma ResumesExactly(window: Window, incoming: seq<Incoming>)
    ensures ResumesAt(window, incoming, StartOf(window, incoming))
  {
    var recent, r := window.recent, StartOf(window, incoming);
    if recent != [] {
      forall at: nat {
        StandsMatches(recent, incoming, at);
      }
      AppendMeaning(recent, incoming);
    }
  }

  /** The retained items and then the new ones, numbered on. */
  ghost predicate Continues(window: Window, appended: seq<Incoming>, all: seq<Stored>) {
    && |all| == |window.recent| + |appended|
    && (forall i :: 0 <= i < |window.recent| ==> all[i] == window.recent[i])
    && (forall i :: 0 <= i < |appended| ==>
          all[|window.recent| + i] == Stored(window.counter + i + 1, appended[i].role, appended[i].text))
  }

  /**
   * What a transcript does: without new messages nothing; else the window becomes the newest `max` of the retained and
   * new items, and if that leaves any out, the summariser's answer counts.
   */
  ghost predicate RememberedAs(state: KeyState, incoming: seq<Incoming>, max: nat, summary: Summary,
                               failure: Option<MemoryError>, next: KeyState) {
    exists start, all :: 0 <= start <= |incoming| && ResumesAt(state.window, incoming, start)
      && Continues(state.window, incoming[start..], all) && EndsAs(state, |incoming| - start, all, max, summary, failure, next)
  }

  ghost predicate EndsAs(state: KeyState, more: nat, all: seq<Stored>, max: nat, summary: Summary,
                         failure: Option<MemoryError>, next: KeyState) {
    var full := |all| > max;
    if more == 0 then failure.None? && next == state
    else if full && summary.Failing? then failure == Some(SummaryFailed) && next == state
    else
      && failure.None?
      && next.window.counter == state.window.counter + more
      && next.window.recent == (if full then all[|all| - max..] else all)
      && next.summary == (if full && summary.Updated? then summary.summary else state.summary)
  }

  lemma RememberedExactly(state: KeyState, incoming: seq<Incoming>, max: nat, summary: Summary)
    ensures var r := Remembered(state, incoming, max, summary);
            RememberedAs(state, incoming, max, summary, if r.Ok? then None else Some(r.error), if r.Ok? then r.value else state)
  {
    var start := StartOf(state.window, incoming);
    var all := state.window.recent + Numbered(incoming[start..], state.window.counter);
    ResumesExactly(state.window, incoming);
    assert Continues(state.window, incoming[start..], all);
    EndsExactly(state, incoming, all, max, summary);
  }

  lemma EndsExactly(state: KeyState, incoming: seq<Incoming>, all: seq<Stored>, max: nat, summary: Summary)
    requires all == state.window.recent + Numbered(incoming[StartOf(state.window, incoming)..], state.window.counter)
    ensures var r := Remembered(state, incoming, max, summary);
            EndsAs(state, |incoming| - StartOf(state.window, incoming), all, max, summary,
                   if r.Ok? then None else Some(r.error), if r.Ok? then r.value else state)
  {
    if max == 0 && |all| > 0 {
      assert all[|all| - max..] == [];
    }
  }
}
