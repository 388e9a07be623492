/** Chained function rules such as `a>b`: src/sp_config_utils.c splits the chain, and
    src/sp_disabled_functions.c walks the call stack with it. */
module CallChain {
  import opened LinkedList
  import opened Wrappers

  // ---- splitting ----

  const SEPARATOR: char := '>'

  // Where the run of separators, or of other characters, at i ends.
  function RunEnd(s: string, i: nat, separators: bool): (e: nat)
    requires i <= |s|
    ensures i <= e <= |s| && (forall j :: i <= j < e ==> (s[j] == SEPARATOR) == separators)
    ensures e < |s| ==> (s[e] == SEPARATOR) != separators
    decreases |s| - i
  {
    if i < |s| && (s[i] == SEPARATOR) == separators then RunEnd(s, i + 1, separators) else i
  }

  // The non-empty pieces from i on.
  function Pieces(s: string, i: nat): seq<string>
    requires i <= |s|
    decreases |s| - i, 1
  {
    var from := RunEnd(s, i, true);
    PiecesFrom(s, from, RunEnd(s, from, false))
  }

  // The piece between from and to, if there is one, and those behind it.
  function PiecesFrom(s: string, from: nat, to: nat): seq<string>
    requires from <= to <= |s| && (from < |s| ==> from < to)
    decreases |s| - from, 0
  {
    if from == |s| then [] else [s[from..to]] + Pieces(s, to)
  }

  function Reversed<T>(s: seq<T>): (r: seq<T>)
    ensures |r| == |s| && forall i :: 0 <= i < |s| ==> r[i] == s[|s| - 1 - i]
  {
    if s == [] then [] else Reversed(s[1..]) + [s[0]]
  }

  // The function names of a rule, the innermost first; none for a rule without a separator.
  function Chain(value: string): seq<string> {
    if SEPARATOR in value then Reversed(Pieces(value, 0)) else []
  }

  // strtok_r: the next piece at or after i, and where it ends.
  method NextPiece(s: string, i: nat) returns (from: nat, to: nat)
    requires i <= |s|
    ensures from == RunEnd(s, i, true) && to == RunEnd(s, from, false)
  {
    from := i;
    while from < |s| && s[from] == SEPARATOR
      invariant i <= from <= |s| && RunEnd(s, from, true) == RunEnd(s, i, true)
    {
      from := from + 1;
    }
    to := from;
    while to < |s| && s[to] != SEPARATOR
      invariant from <= to <= |s| && RunEnd(s, to, false) == RunEnd(s, from, false)
    {
      to := to + 1;
    }
  }

  // strchr
  method Contains(s: string, c: char) returns (found: bool)
    ensures found == (c in s)
  {
    for i := 0 to |s|
      invariant c !in s[..i]
    {
      if s[i] == c {
        return true;
      }
    }
    return false;
  }

  method ParseFunctionsList(value: string) returns (list: Node?<string>, ghost nodes: seq<Node<string>>)
    ensures IsList(list, nodes) && Data(nodes) == Chain(value)
    ensures if Chain(value) == [] then list == null else list != null && list.data == Chain(value)[0]
  {
    list, nodes := null, [];
    var found := Contains(value, SEPARATOR);
    if found {
      list, nodes := PrependPieces(value);
    }
  }

  method PrependPieces(value: string) returns (list: Node?<string>, ghost nodes: seq<Node<string>>)
    ensures IsList(list, nodes) && Data(nodes) == Reversed(Pieces(value, 0))
  {
    list, nodes := null, [];
    ghost var done: seq<string> := [];
    var from, to := NextPiece(value, 0);
    while from < |value|
      invariant from <= to <= |value| && (from < |value| ==> from < to)
      invariant IsList(list, nodes) && Data(nodes) == Reversed(done)
      invariant Pieces(value, 0) == done + PiecesFrom(value, from, to)
      decreases |value| - from
    {
      ghost var before := nodes;
      MovePiece(value, done, from, to);
      done := done + [value[from..to]];
      list := Prepend(list, value[from..to], before);
      nodes := [list] + before;
      from, to := NextPiece(value, to);
    }
  }

  lemma MovePiece(value: string, done: seq<string>, from: nat, to: nat)
    requires from < to <= |value|
    ensures done + PiecesFrom(value, from, to) == done + [value[from..to]] + Pieces(value, to)
    ensures Reversed(done + [value[from..to]]) == [value[from..to]] + Reversed(done)
  {
    ReversedLast(done, value[from..to]);
  }

  lemma {:induction false} ReversedLast<T>(s: seq<T>, x: T)
    ensures Reversed(s + [x]) == [x] + Reversed(s)
  {
    if s == [] {
    } else {
      assert (s + [x])[1..] == s[1..] + [x];
      ReversedLast(s[1..], x);
    }
  }

  function Join(names: seq<string>): string
    requires names != []
  {
    if |names| == 1 then names[0] else names[0] + [SEPARATOR] + Join(names[1..])
  }

  lemma {:induction false} RunEndShift(s: string, i: nat, j: nat, separators: bool)
    requires i <= j <= |s|
    ensures RunEnd(s, j, separators) == i + RunEnd(s[i..], j - i, separators)
    decreases |s| - j
  {
    if j < |s| && (s[j] == SEPARATOR) == separators {
      RunEndShift(s, i, j + 1, separators);
    }
  }

  lemma {:induction false} PiecesShift(s: string, i: nat, j: nat)
    requires i <= j <= |s|
    ensures Pieces(s, j) == Pieces(s[i..], j - i)
    decreases |s| - j
  {
    RunEndShift(s, i, j, true);
    var from := RunEnd(s, j, true);
    RunEndShift(s, i, from, false);
    if from < |s| {
      var to := RunEnd(s, from, false);
      PiecesShift(s, i, to);
      SliceShift(s, i, from, to);
    }
  }

  lemma SliceShift(s: string, i: nat, from: nat, to: nat)
    requires i <= from <= to <= |s|
    ensures s[from..to] == s[i..][from - i..to - i]
  {
    var a, b := s[from..to], s[i..][from - i..to - i];
    assert |a| == |b| && forall k :: 0 <= k < |a| ==> a[k] == b[k];
  }

  /** Names joined by separators are split into the same names, and the chain lists them backwards. */
  lemma {:induction false} PiecesOfJoin(names: seq<string>)
    requires names != [] && forall i :: 0 <= i < |names| ==> names[i] != [] && SEPARATOR !in names[i]
    ensures Pieces(Join(names), 0) == names
    ensures |names| > 1 ==> Chain(Join(names)) == Reversed(names)
  {
    if |names| == 1 {
      FirstPiece(names[0], names[0]);
      assert names == [names[0]];
    } else {
      PiecesOfJoin(names[1..]);
      FirstPiece(names[0], Join(names));
      AfterSeparator(names[0], Join(names[1..]));
      assert names == [names[0]] + names[1..];
    }
  }

  lemma FirstPiece(name: string, s: string)
    requires name != [] && SEPARATOR !in name && name <= s && (|name| < |s| ==> s[|name|] == SEPARATOR)
    ensures Pieces(s, 0) == [name] + Pieces(s, |name|)
  {
    assert s[0] == name[0];
    RunEndAt(s, 0, |name|);
    assert s[0..|name|] == name;
  }

  lemma AfterSeparator(name: string, t: string)
    ensures Pieces(name + [SEPARATOR] + t, |name|) == Pieces(t, 0)
  {
    var s, n := name + [SEPARATOR] + t, |name|;
    PiecesShift(s, n + 1, n + 1);
    SeparatorAt(s, n);
    assert s[n + 1..] == t;
  }

  lemma SeparatorAt(s: string, n: nat)
    requires n < |s| && s[n] == SEPARATOR
    ensures Pieces(s, n) == Pieces(s, n + 1)
  {
    assert RunEnd(s, n, true) == RunEnd(s, n + 1, true);
  }

  lemma {:induction false} RunEndAt(s: string, i: nat, e: nat)
    requires i <= e <= |s| && (forall j :: i <= j < e ==> s[j] != SEPARATOR) && (e < |s| ==> s[e] == SEPARATOR)
    ensures RunEnd(s, i, false) == e
  {
  }

  // ---- the walk ----

  // The names of the calls in progress, from the current one outwards, up to one without a name.
  function Named(stack: seq<Option<string>>): seq<string> {
    if stack == [] || stack[0].None? then [] else [stack[0].value] + Named(stack[1..])
  }

  // The walk takes each frame that has the next name.
  function Walk(stack: seq<Option<string>>, chain: seq<string>): bool
    decreases |stack|
  {
    if stack == [] then false
    else if chain == [] then true
    else if stack[0].None? then false
    else Walk(stack[1..], if stack[0].value == chain[0] then chain[1..] else chain)
  }

  // These positions, in increasing order, spell out the chain.
  predicate Spells(names: seq<string>, chain: seq<string>, positions: seq<nat>) {
    && |positions| == |chain|
    && (forall i :: 0 <= i < |positions| ==> positions[i] < |names| && names[positions[i]] == chain[i])
    && (forall i, j :: 0 <= i < j < |positions| ==> positions[i] < positions[j])
  }

  ghost predicate IsSubsequence(chain: seq<string>, names: seq<string>) {
    exists positions :: Spells(names, chain, positions)
  }

  // The frames in which the chain must be found: the named ones, with one frame left behind them.
  function Searched(stack: seq<Option<string>>): seq<string> {
    var names := Named(stack);
    if |names| == |stack| && stack != [] then names[..|names| - 1] else names
  }

  lemma SearchedNext(stack: seq<Option<string>>)
    requires |stack| > 1 && stack[0].Some?
    ensures Searched(stack) == [stack[0].value] + Searched(stack[1..])
  {
  }

  lemma SkipName(name: string, names: seq<string>, chain: seq<string>)
    requires chain != [] && name != chain[0]
    ensures IsSubsequence(chain, [name] + names) <==> IsSubsequence(chain, names)
  {
    if IsSubsequence(chain, [name] + names) {
      var positions :| Spells([name] + names, chain, positions);
      var shifted :=
        seq(|positions|, i requires 0 <= i < |positions| => if positions[i] > 0 then positions[i] - 1 else 0);
      assert positions[0] > 0;
      assert Spells(names, chain, shifted);
    }
    if IsSubsequence(chain, names) {
      var positions :| Spells(names, chain, positions);
      var shifted: seq<nat> := seq(|positions|, i requires 0 <= i < |positions| => positions[i] + 1);
      assert Spells([name] + names, chain, shifted);
    }
  }

  lemma TakeName(name: string, names: seq<string>, chain: seq<string>)
    requires chain != [] && name == chain[0]
    ensures IsSubsequence(chain, [name] + names) <==> IsSubsequence(chain[1..], names)
  {
    if IsSubsequence(chain, [name] + names) {
      var positions :| Spells([name] + names, chain, positions);
      assert forall i :: 0 < i < |positions| ==> positions[i] > positions[0];
      var shifted: seq<nat> :=
        seq(|positions| - 1,
            i requires 0 <= i < |positions| - 1 => if positions[i + 1] > 0 then positions[i + 1] - 1 else 0);
      assert Spells(names, chain[1..], shifted);
    }
    if IsSubsequence(chain[1..], names) {
      var positions :| Spells(names, chain[1..], positions);
      var shifted: seq<nat> := [0] + seq(|positions|, i requires 0 <= i < |positions| => positions[i] + 1);
      assert Spells([name] + names, chain, shifted);
    }
  }

  /** The walk succeeds exactly when the chain is a subsequence of the names searched. */
  lemma {:induction false} WalkFindsSubsequence(stack: seq<Option<string>>, chain: seq<string>)
    ensures Walk(stack, chain) <==> stack != [] && IsSubsequence(chain, Searched(stack))
    decreases |stack|
  {
    if stack != [] {
      if chain == [] {
        assert Spells(Searched(stack), chain, []);
      } else if stack[0].None? || |stack| == 1 {
        assert Searched(stack) == [];
        forall positions: seq<nat> ensures !Spells([], chain, positions) {
          assert |positions| > 0 ==> positions[0] >= 0;
        }
      } else {
        SearchedNext(stack);
        if stack[0].value == chain[0] {
          WalkFindsSubsequence(stack[1..], chain[1..]);
          TakeName(stack[0].value, Searched(stack[1..]), chain);
        } else {
          WalkFindsSubsequence(stack[1..], chain);
          SkipName(stack[0].value, Searched(stack[1..]), chain);
        }
      }
    }
  }

  class Executor {
    // EG(current_execute_data)
    var current: Node?<Option<string>>

    /** Decides whether the calls in progress match the chain, and leaves the current call as it
        was passed. */
    method IsFunctionsListMatching(call: Node<Option<string>>, ghost frames: seq<Node<Option<string>>>,
                                   list: Node?<string>, ghost nodes: seq<Node<string>>)
      returns (matching: bool)
      requires IsList(call, frames) && IsList(list, nodes)
      modifies this
      ensures current == call
      ensures matching <==> IsSubsequence(Data(nodes), Searched(Data(frames)))
    {
      WalkFindsSubsequence(Data(frames), Data(nodes));
      var frame: Node?<Option<string>>, it := call, list;
      ghost var i, k := 0, 0;
      assert Data(frames)[0..] == Data(frames) && Data(nodes)[0..] == Data(nodes);
      while frame != null
        invariant 0 <= i <= |frames| && frame == At(frames, i)
        invariant 0 <= k <= |nodes| && it == At(nodes, k)
        invariant Walk(Data(frames)[i..], Data(nodes)[k..]) == Walk(Data(frames), Data(nodes))
        decreases |frames| - i
      {
        if it == null {
          current := call;
          return true;
        }
        current := frame;
        var path := frame.data;
        if path.None? {
          break;
        }
        assert Data(frames)[i..][1..] == Data(frames)[i + 1..];
        if path.value == it.data {
          assert Data(nodes)[k..][1..] == Data(nodes)[k + 1..];
          it := it.next;
          k := k + 1;
        }
        frame := frame.next;
        i := i + 1;
      }
      current := call;
      return false;
    }
  }

  /** The walk passes over frames that are not in the chain, the innermost included: of itself it
      does not require the function that is called to be the last one of the chain. */
  lemma InnermostMayDiffer()
    ensures Walk([Some("c"), Some("b"), Some("a"), Some("main")], ["b", "a"])
  {
    var stack := [Some("c"), Some("b"), Some("a"), Some("main")];
    assert stack[1..] == [Some("b"), Some("a"), Some("main")];
    assert stack[1..][1..] == [Some("a"), Some("main")];
    assert ["b", "a"][1..] == ["a"];
  }
}
