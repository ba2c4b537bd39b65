/** The rotating headline of the landing page (`TextAnimation` in pages/index.tsx).
    Every word span is split into letter spans once; then every tick moves the
    current word out letter by letter and the next word in, cyclically.
    The deferred class changes that the page registers with setTimeout are kept
    as a list of pending actions; `Flush` fires them. Real time is not modelled. */
module TextAnimation {

  /** The class name of a letter span: 'letter', 'letter out', 'letter behind', 'letter in'. */
  datatype LetterClass = Idle | Out | Behind | In

  /** One letter span: the character it shows and its class. */
  datatype Cell = Cell(ch: char, cls: LetterClass)

  /** A deferred class change: after `delay` ms, letter `letter` of word `word` gets class `cls`. */
  datatype Action = Action(delay: nat, word: nat, letter: nat, cls: LetterClass)

  /** Stagger between consecutive letters, in ms. */
  const Stagger: nat := 80
  /** Extra delay before the first incoming letter, in ms. */
  const InDelay: nat := 340

  /** The words of the headline, in document order. */
  const Headline: seq<string> := ["STAKE", "INVEST", "BUILD", "CHILL", "LOCK", "EARN", "APE"]

  /** splitLetters: one letter span per character of the word, in order, each of class 'letter'. */
  method SplitLetters(word: string) returns (letters: seq<Cell>)
    ensures |letters| == |word|
    ensures forall i :: 0 <= i < |letters| ==> letters[i] == Cell(word[i], Idle)
  {
    letters := [];
    for i := 0 to |word|
      invariant |letters| == i
      invariant forall j :: 0 <= j < i ==> letters[j] == Cell(word[j], Idle)
    {
      letters := letters + [Cell(word[i], Idle)];
    }
  }

  /** The setup loop over the word spans: splits each word, in document order. */
  method SplitAll(words: seq<string>) returns (split: seq<seq<Cell>>)
    ensures Spells(split, words)
    ensures forall w, i :: 0 <= w < |split| && 0 <= i < |split[w]| ==> split[w][i].cls == Idle
  {
    split := [];
    for w := 0 to |words|
      invariant |split| == w
      invariant forall v :: 0 <= v < w ==> |split[v]| == |words[v]|
      invariant forall v, i :: 0 <= v < w && 0 <= i < |split[v]| ==> split[v][i] == Cell(words[v][i], Idle)
    {
      var letters := SplitLetters(words[w]);
      split := split + [letters];
    }
  }

  /** The remainder of x divided by m is the r with x == q * m + r and 0 <= r < m. */
  lemma ModUnique(x: int, m: int, q: int, r: int)
    requires m > 0 && 0 <= r < m && x == q * m + r
    ensures x % m == r
  {
    var q', r' := x / m, x % m;
    var d := q - q';
    assert d * m == r' - r;
    if d > 0 {
      MulAtLeast(d, m);
    } else if d < 0 {
      MulAtLeast(-d, m);
    }
  }

  lemma MulAtLeast(d: int, m: int)
    requires d >= 1 && m > 0
    ensures d * m >= m
  {
  }

  /** The index that follows `current` among `count` words: the last index wraps to 0. */
  function NextIndex(current: nat, count: nat): (next: nat)
    ensures current < count ==> next < count && next == (current + 1) % count
  {
    if current == count - 1 then
      ModUnique(count, count, 1, 0); 0
    else
      if current < count then ModUnique(current + 1, count, 0, current + 1); current + 1
      else current + 1
  }

  /** The index reached from `current` after `steps` word changes. */
  function Advance(current: nat, count: nat, steps: nat): nat
    decreases steps
  {
    if steps == 0 then current else Advance(NextIndex(current, count), count, steps - 1)
  }

  /** After `steps` changes from index `current`, the index is (current + steps) mod count. */
  lemma {:induction false} AdvanceIsModular(current: nat, count: nat, steps: nat)
    requires current < count
    ensures Advance(current, count, steps) == (current + steps) % count
    decreases steps
  {
    if steps > 0 {
      var next := NextIndex(current, count);
      AdvanceIsModular(next, count, steps - 1);
      if current == count - 1 {
        var q, r := (steps - 1) / count, (steps - 1) % count;
        assert current + steps == (q + 1) * count + r;
        ModUnique(current + steps, count, q + 1, r);
      }
    }
  }

  /** With the seven headline words, after k changes from the first word the current word is k mod 7. */
  lemma HeadlineAfterSteps(k: nat)
    ensures Advance(0, |Headline|, k) == k % 7
  {
    AdvanceIsModular(0, |Headline|, k);
  }

  /** A letter sequence with every class replaced by `cls`. */
  function WithClass(letters: seq<Cell>, cls: LetterClass): (r: seq<Cell>)
    ensures |r| == |letters|
    ensures forall i :: 0 <= i < |r| ==> r[i] == letters[i].(cls := cls)
  {
    seq(|letters|, i requires 0 <= i < |letters| => letters[i].(cls := cls))
  }

  /** The outgoing timers of one change: letter i of word w goes out at i * 80 ms. */
  function OutActions(w: nat, len: nat): (r: seq<Action>)
    ensures |r| == len
    ensures forall i :: 0 <= i < len ==> r[i] == Action(i * Stagger, w, i, Out)
  {
    seq(len, i requires 0 <= i => Action(i * Stagger, w, i, Out))
  }

  /** The incoming timers of one change: letter i of word w comes in at 340 + i * 80 ms. */
  function InActions(w: nat, len: nat): (r: seq<Action>)
    ensures |r| == len
    ensures forall i :: 0 <= i < len ==> r[i] == Action(InDelay + i * Stagger, w, i, In)
  {
    seq(len, i requires 0 <= i => Action(InDelay + i * Stagger, w, i, In))
  }

  /** An action names an existing letter span. */
  predicate Targets(cells: seq<seq<Cell>>, a: Action)
  {
    a.word < |cells| && a.letter < |cells[a.word]|
  }

  /** Firing one timer: the named letter gets the action's class. */
  function ApplyAction(cells: seq<seq<Cell>>, a: Action): (r: seq<seq<Cell>>)
    ensures SameLetters(r, cells)
  {
    if Targets(cells, a)
    then cells[a.word := cells[a.word][a.letter := cells[a.word][a.letter].(cls := a.cls)]]
    else cells
  }

  /** Firing a list of timers, first to last; a word that no timer names is left as it was. */
  function ApplyActions(cells: seq<seq<Cell>>, acts: seq<Action>): (r: seq<seq<Cell>>)
    ensures |r| == |cells|
    ensures forall v :: 0 <= v < |cells| && (forall k :: 0 <= k < |acts| ==> acts[k].word != v) ==> r[v] == cells[v]
    decreases |acts|
  {
    if acts == [] then cells else ApplyActions(ApplyAction(cells, acts[0]), acts[1..])
  }

  /** Two letter grids have the same words and the same characters; only classes may differ. */
  predicate SameLetters(a: seq<seq<Cell>>, b: seq<seq<Cell>>)
  {
    |a| == |b|
    && (forall w :: 0 <= w < |a| ==> |a[w]| == |b[w]|)
    && (forall w, i :: 0 <= w < |a| && 0 <= i < |a[w]| ==> a[w][i].ch == b[w][i].ch)
  }

  /** Firing timers never adds, removes or retypes a letter; it only changes classes. */
  lemma {:induction false} ApplyActionsKeepsLetters(cells: seq<seq<Cell>>, acts: seq<Action>)
    ensures SameLetters(ApplyActions(cells, acts), cells)
    decreases |acts|
  {
    if acts != [] {
      var next := ApplyAction(cells, acts[0]);
      ApplyActionsKeepsLetters(next, acts[1..]);
      assert SameLetters(next, cells);
    }
  }

  /** Firing a run of actions that walks letters base, base + 1, ... of word w with class cls
      gives exactly those letters class cls and leaves every other letter as it was. */
  lemma {:induction false} Sweep(cells: seq<seq<Cell>>, acts: seq<Action>, w: nat, base: nat, cls: LetterClass)
    requires w < |cells| && base + |acts| <= |cells[w]|
    requires forall j :: 0 <= j < |acts| ==> acts[j].word == w && acts[j].letter == base + j && acts[j].cls == cls
    ensures var r := ApplyActions(cells, acts);
      && |r| == |cells|
      && (forall v :: 0 <= v < |cells| && v != w ==> r[v] == cells[v])
      && |r[w]| == |cells[w]|
      && (forall i :: 0 <= i < |cells[w]| ==>
            r[w][i] == if base <= i < base + |acts| then cells[w][i].(cls := cls) else cells[w][i])
    decreases |acts|
  {
    if acts != [] {
      var next := ApplyAction(cells, acts[0]);
      assert Targets(cells, acts[0]);
      Sweep(next, acts[1..], w, base + 1, cls);
    }
  }

  /** Firing a list in two parts is firing the parts one after the other. */
  lemma {:induction false} ApplyActionsAppend(cells: seq<seq<Cell>>, a: seq<Action>, b: seq<Action>)
    ensures ApplyActions(cells, a + b) == ApplyActions(ApplyActions(cells, a), b)
    decreases |a|
  {
    if a != [] {
      assert (a + b)[0] == a[0];
      assert (a + b)[1..] == a[1..] + b;
      ApplyActionsAppend(ApplyAction(cells, a[0]), a[1..], b);
    } else {
      assert a + b == b;
    }
  }

  /** The timers of one change between two different words, once all have fired: every letter of
      the outgoing word is 'letter out', every letter of the incoming word is 'letter in', and no
      other word is touched. `cells` is the grid as changeWord leaves it (incoming word 'behind'). */
  lemma StepOutcome(cells: seq<seq<Cell>>, c: nat, n: nat)
    requires c < |cells| && n < |cells| && c != n
    ensures var r := ApplyActions(cells, OutActions(c, |cells[c]|) + InActions(n, |cells[n]|));
      && SameLetters(r, cells)
      && (forall i :: 0 <= i < |r[c]| ==> r[c][i].cls == Out)
      && (forall i :: 0 <= i < |r[n]| ==> r[n][i].cls == In)
      && (forall v :: 0 <= v < |cells| && v != c && v != n ==> r[v] == cells[v])
  {
    var outs, ins := OutActions(c, |cells[c]|), InActions(n, |cells[n]|);
    ApplyActionsAppend(cells, outs, ins);
    Sweep(cells, outs, c, 0, Out);
    var mid := ApplyActions(cells, outs);
    Sweep(mid, ins, n, 0, In);
    ApplyActionsKeepsLetters(cells, outs + ins);
  }

  /** With a single word the outgoing and incoming word coincide; since every 'in' timer is
      registered after every 'out' timer, once all have fired every letter is 'letter in'. */
  lemma SingleWordOutcome(cells: seq<seq<Cell>>)
    requires |cells| == 1
    ensures var r := ApplyActions(cells, OutActions(0, |cells[0]|) + InActions(0, |cells[0]|));
      && SameLetters(r, cells)
      && (forall i :: 0 <= i < |r[0]| ==> r[0][i].cls == In)
  {
    var outs, ins := OutActions(0, |cells[0]|), InActions(0, |cells[0]|);
    ApplyActionsAppend(cells, outs, ins);
    Sweep(cells, outs, 0, 0, Out);
    var mid := ApplyActions(cells, outs);
    Sweep(mid, ins, 0, 0, In);
    ApplyActionsKeepsLetters(cells, outs + ins);
  }

  /** The letter grid matches the words: one cell per character, in order. */
  predicate Spells(cells: seq<seq<Cell>>, words: seq<string>)
  {
    |cells| == |words|
    && (forall w :: 0 <= w < |cells| ==> |cells[w]| == |words[w]|)
    && (forall w, i :: 0 <= w < |cells| && 0 <= i < |cells[w]| ==> cells[w][i].ch == words[w][i])
  }

  /** The animation state of one `TextAnimation` component. */
  class WordCycler {
    /** The word spans, in document order. */
    const words: seq<string>
    /** wordArray: the letter spans of each word, once split. */
    var cells: seq<seq<Cell>>
    /** Whether each word span has had its opacity set to '1'. */
    var shown: seq<bool>
    /** Index of the word on display. */
    var currentWord: nat
    /** The one-shot latch (hasBeenTriggerd.current). */
    var started: bool
    /** Whether the 3000 ms timeout that starts the 3000 ms interval has been registered. */
    var driverArmed: bool
    /** Letter timers registered and not yet fired, in registration order. */
    var pending: seq<Action>

    ghost predicate Valid()
      reads this
    {
      && |shown| == |words|
      && (!started ==> cells == [] && currentWord == 0 && pending == [] && !driverArmed)
      && (cells != [] ==> Spells(cells, words) && currentWord < |cells|)
      && (forall a :: a in pending ==> Targets(cells, a))
    }

    /** A freshly rendered component: nothing split, no word shown, latch open. */
    constructor (words: seq<string>)
      ensures Valid()
      ensures this.words == words && cells == [] && shown == seq(|words|, _ => false)
      ensures currentWord == 0 && !started && !driverArmed && pending == []
    {
      this.words := words;
      cells := [];
      shown := seq(|words|, _ => false);
      currentWord := 0;
      started := false;
      driverArmed := false;
      pending := [];
    }

    /** onStartAnimation: closes the latch first; then shows the first word (the page faults here
        when there is no word, so `ok` is false and nothing else happens), splits every word and
        arms the driver. */
    method StartAnimation() returns (ok: bool)
      requires Valid() && !started
      modifies this
      ensures Valid() && started
      ensures ok == (|words| > 0)
      ensures ok ==> && Spells(cells, words)
                     && (forall w, i :: 0 <= w < |cells| && 0 <= i < |cells[w]| ==> cells[w][i].cls == Idle)
                     && shown == old(shown)[0 := true]
                     && currentWord == 0 && driverArmed && pending == []
      ensures !ok ==> cells == [] && shown == old(shown) && currentWord == 0 && !driverArmed && pending == []
    {
      started := true;
      if |words| == 0 {
        return false;
      }
      shown := shown[0 := true];
      currentWord := 0;
      cells := SplitAll(words);
      driverArmed := true;
      ok := true;
    }

    /** The mount effect: runs the setup only while the latch is open, so at most once. */
    method Mount() returns (ran: bool)
      requires Valid()
      modifies this
      ensures Valid() && started
      ensures ran == !old(started)
      ensures old(started) ==> cells == old(cells) && shown == old(shown) && currentWord == old(currentWord)
                               && driverArmed == old(driverArmed) && pending == old(pending)
      ensures ran ==> currentWord == 0 && pending == [] && driverArmed == (|words| > 0)
      ensures ran ==> forall w, i :: 0 <= w < |cells| && 0 <= i < |cells[w]| ==> cells[w][i].cls == Idle
      ensures ran && |words| > 0 ==> Spells(cells, words) && shown == old(shown)[0 := true]
      ensures ran && |words| == 0 ==> cells == [] && shown == old(shown)
    {
      ran := !started;
      if ran {
        var _ := StartAnimation();
      }
    }

    /** changeWord: when both the current and the next word exist, registers an 'out' timer for
        each current letter, puts each next letter 'behind' at once (showing the next word if it
        has a letter), registers an 'in' timer for each next letter, and advances the index. */
    method ChangeWord()
      requires Valid()
      modifies this
      ensures Valid()
      ensures started == old(started) && driverArmed == old(driverArmed)
      ensures var c, n := old(currentWord), NextIndex(old(currentWord), |words|);
        if c < |old(cells)| && n < |old(cells)| then
          && cells == old(cells)[n := WithClass(old(cells)[n], Behind)]
          && shown == (if |old(cells)[n]| > 0 then old(shown)[n := true] else old(shown))
          && pending == old(pending) + OutActions(c, |old(cells)[c]|) + InActions(n, |old(cells)[n]|)
          && currentWord == NextIndex(c, |old(cells)|)
        else
          cells == old(cells) && shown == old(shown) && pending == old(pending) && currentWord == c
    {
      var c := currentWord;
      var n := if c == |words| - 1 then 0 else c + 1;
      if !(c < |cells| && n < |cells|) {
        return;
      }
      var cw, nw := cells[c], cells[n];
      var acts, grid, vis := pending, cells, shown;
      for i := 0 to |cw|
        invariant acts == old(pending) + OutActions(c, i)
      {
        acts := acts + [Action(i * Stagger, c, i, Out)];
      }
      ghost var acts1 := acts;
      for i := 0 to |nw|
        invariant |grid| == |cells| && |grid[n]| == |nw|
        invariant forall v :: 0 <= v < |grid| && v != n ==> grid[v] == cells[v]
        invariant forall j :: 0 <= j < |nw| ==> grid[n][j] == if j < i then nw[j].(cls := Behind) else nw[j]
        invariant vis == if i > 0 then shown[n := true] else shown
        invariant acts == acts1 + InActions(n, i)
      {
        grid := grid[n := grid[n][i := nw[i].(cls := Behind)]];
        vis := vis[n := true];
        acts := acts + [Action(InDelay + i * Stagger, n, i, In)];
      }
      assert grid[n] == WithClass(nw, Behind);
      assert grid == cells[n := WithClass(nw, Behind)];
      cells, shown, pending := grid, vis, acts;
      currentWord := if c == |cells| - 1 then 0 else c + 1;
    }

    /** Fires every pending timer in registration order. */
    method Flush()
      requires Valid()
      modifies this
      ensures Valid() && pending == []
      ensures cells == ApplyActions(old(cells), old(pending))
      ensures shown == old(shown) && currentWord == old(currentWord)
      ensures started == old(started) && driverArmed == old(driverArmed)
    {
      var grid, acts := cells, pending;
      for i := 0 to |acts|
        invariant ApplyActions(grid, acts[i..]) == ApplyActions(cells, acts)
        invariant SameLetters(grid, cells)
      {
        assert acts[i..][0] == acts[i] && acts[i..][1..] == acts[i + 1..];
        grid := ApplyAction(grid, acts[i]);
      }
      assert acts[|acts|..] == [];
      cells, pending := grid, [];
    }
  }

  /** The headline from mounting to its first change: a second mount changes nothing, and once
      the first change's timers have fired, STAKE is all 'letter out' and INVEST all 'letter in'. */
  method HeadlineScenario()
  {
    var cycler := new WordCycler(Headline);
    var ran := cycler.Mount();
    assert ran && |cycler.cells| == 7 && |cycler.cells[0]| == 5 && |cycler.cells[1]| == 6;
    ran := cycler.Mount();
    assert !ran && |cycler.cells| == 7;
    cycler.ChangeWord();
    ghost var grid, c, n := cycler.cells, 0, 1;
    assert cycler.currentWord == 1;
    assert cycler.pending == OutActions(c, |grid[c]|) + InActions(n, |grid[n]|);
    cycler.Flush();
    StepOutcome(grid, c, n);
    assert forall i :: 0 <= i < 5 ==> cycler.cells[0][i].cls == Out;
    assert forall i :: 0 <= i < 6 ==> cycler.cells[1][i].cls == In;
  }
}
