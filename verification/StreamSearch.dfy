/** Searching a character stream for one or several targets (Stream.cpp). */
module StreamSearch {
  import opened CTypes
  import opened CharStream

  // ---- what a match is ----

  /** The first k characters of the target are the last k characters of the text. */
  ghost predicate Overlaps(str: Text, text: Text, k: nat) {
    k <= |str| && k <= |text| && text[|text| - k..] == str[..k]
  }

  /** k is the length of the longest prefix of the target that the text ends with. */
  ghost predicate LongestOverlap(str: Text, text: Text, k: nat) {
    Overlaps(str, text, k) && NoLonger(str, text, k)
  }

  ghost predicate NoLonger(str: Text, text: Text, k: nat) {
    forall j :: k < j <= |str| ==> !Overlaps(str, text, j)
  }

  /** An occurrence of the target ends where the text ends. */
  ghost predicate Ends(str: Text, text: Text) {
    Overlaps(str, text, |str|)
  }

  /** One more character: an overlap of k + 1 is an overlap of k and a matching character. */
  lemma OverlapsSnoc(str: Text, text: Text, c: uint8, k: nat)
    ensures Overlaps(str, text + [c], k + 1) <==> k < |str| && Overlaps(str, text, k) && str[k] == c
  {
    var next := text + [c];
    if k < |str| && k <= |text| {
      assert next[|next| - (k + 1)..] == text[|text| - k..] + [c];
      assert str[..k + 1] == str[..k] + [str[k]];
      if Overlaps(str, next, k + 1) {
        assert text[|text| - k..] == (text[|text| - k..] + [c])[..k] == (str[..k] + [str[k]])[..k] == str[..k];
        assert c == (text[|text| - k..] + [c])[k] == str[k];
      }
    }
  }

  /** The character continues the overlap. */
  lemma Continues(str: Text, text: Text, c: uint8, k: nat)
    requires LongestOverlap(str, text, k) && k < |str| && str[k] == c
    ensures LongestOverlap(str, text + [c], k + 1)
  {
    forall j | k + 1 < j <= |str| ensures !Overlaps(str, text + [c], j) {
      OverlapsSnoc(str, text, c, j - 1);
    }
    OverlapsSnoc(str, text, c, k);
  }

  /** The character breaks the overlap: nothing longer than k survives, and shorter ones are still open. */
  lemma Breaks(str: Text, text: Text, c: uint8, k: nat)
    requires LongestOverlap(str, text, k) && k < |str| && str[k] != c
    ensures NoLonger(str, text + [c], k)
  {
    forall j | k < j <= |str| ensures !Overlaps(str, text + [c], j) {
      OverlapsSnoc(str, text, c, j - 1);
    }
  }

  /** Trying length k + 1 settles it one way or the other. */
  lemma Tries(str: Text, text: Text, c: uint8, k: nat)
    requires k < |str| && NoLonger(str, text + [c], k + 1)
    ensures if Overlaps(str, text, k) && str[k] == c
            then LongestOverlap(str, text + [c], k + 1)
            else NoLonger(str, text + [c], k)
  {
    OverlapsSnoc(str, text, c, k);
  }

  /** Within a text ending in str[..m], shorter overlaps are the borders of str[..m]. */
  lemma OverlapsWithin(str: Text, text: Text, m: nat, k: nat)
    requires Overlaps(str, text, m) && k <= m
    ensures Overlaps(str, text, k) <==> forall i :: 0 <= i < k ==> str[i] == str[i + (m - k)]
  {
    var tail := text[|text| - k..];
    assert tail == str[m - k..m] by {
      assert tail == text[|text| - m..][m - k..];
    }
    assert forall i :: 0 <= i < k ==> tail[i] == str[i + (m - k)];
  }

  class MultiTarget {
    const str: Text
    var index: nat

    constructor (str: Text)
      ensures this.str == str && index == 0
    {
      this.str := str;
      index := 0;
    }

    /** One character against one target: continue the match, or fall back to the longest overlap still alive. */
    method Advance(c: uint8, ghost text: Text) returns (complete: bool)
      requires index < |str| && LongestOverlap(str, text, index)
      modifies `index
      ensures index <= |str| && LongestOverlap(str, text + [c], index)
      ensures complete <==> index == |str|
    {
      complete := false;
      if c == str[index] {
        Continues(str, text, c, index);
        index := index + 1;
        return index == |str|;
      }
      Breaks(str, text, c, index);
      if index == 0 {
        return;
      }
      var origIndex := index;
      while true
        invariant 0 < index <= origIndex
        invariant NoLonger(str, text + [c], index)
        decreases index
      {
        index := index - 1;
        Tries(str, text, c, index);
        if c == str[index] {
          if index == 0 {
            index := index + 1;
            break;
          }
          var diff := origIndex - index;
          var i := 0;
          while i < index
            invariant 0 <= i <= index
            invariant forall k :: 0 <= k < i ==> str[k] == str[k + diff]
          {
            if str[i] != str[i + diff] {
              break;
            }
            i := i + 1;
          }
          OverlapsWithin(str, text, origIndex, index);
          if i == index {
            index := index + 1;
            break;
          }
        }
        if index == 0 {
          break;
        }
      }
    }
  }

  /** No target's occurrence ends where the text ends. */
  ghost predicate NoneEndsAt(strs: seq<Text>, text: Text) {
    forall i :: 0 <= i < |strs| ==> !Ends(strs[i], text)
  }

  /** No target's occurrence ends within the first n characters. */
  ghost predicate NoneEnded(strs: seq<Text>, text: Text, n: nat)
    requires n <= |text|
  {
    forall m :: 0 <= m <= n ==> NoneEndsAt(strs, text[..m])
  }

  ghost function Strs(targets: seq<MultiTarget>): (s: seq<Text>)
    ensures |s| == |targets|
  {
    seq(|targets|, i requires 0 <= i < |targets| => targets[i].str)
  }

  /** The earliest end of any target's occurrence, and the lowest-numbered target among those that end there. */
  ghost predicate FirstEnd(strs: seq<Text>, text: Text, n: nat, r: nat) {
    && n <= |text| && r < |strs|
    && Ends(strs[r], text[..n])
    && NoneEndsAt(strs[..r], text[..n])
    && (n > 0 ==> NoneEnded(strs, text, n - 1))
  }

  /** What a search that returns r leaves behind: everything consumed up to the first end, or all of it. */
  ghost predicate Searched(text: Text, rest: Text, strs: seq<Text>, r: int) {
    && -1 <= r < |strs|
    && |rest| <= |text|
    && var n := |text| - |rest|;
    && rest == text[n..]
    && if r >= 0 then FirstEnd(strs, text, n, r) else n == |text| && NoneEnded(strs, text, n)
  }

  /** Every target is still incomplete and stands at its longest overlap with the text. */
  ghost predicate Tracking(targets: seq<MultiTarget>, text: Text)
    reads targets
  {
    forall i :: 0 <= i < |targets| ==>
      targets[i].index < |targets[i].str| && LongestOverlap(targets[i].str, text, targets[i].index)
  }

  /** One character against every target in turn, stopping at the first that completes. */
  method FeedAll(targets: array<MultiTarget>, c: uint8, ghost text: Text, ghost strs: seq<Text>) returns (r: int)
    requires forall i, j :: 0 <= i < j < targets.Length ==> targets[i] != targets[j]
    requires Tracking(targets[..], text) && strs == Strs(targets[..])
    modifies targets[..]
    ensures -1 <= r < targets.Length
    ensures r < 0 ==> Tracking(targets[..], text + [c]) && NoneEndsAt(strs, text + [c])
    ensures r >= 0 ==> Ends(strs[r], text + [c]) && NoneEndsAt(strs[..r], text + [c])
  {
    for k := 0 to targets.Length
      invariant forall i :: 0 <= i < k ==>
        targets[i].index < |targets[i].str| && LongestOverlap(targets[i].str, text + [c], targets[i].index)
      invariant forall i :: k <= i < targets.Length ==>
        targets[i].index < |targets[i].str| && LongestOverlap(targets[i].str, text, targets[i].index)
      invariant NoneEndsAt(strs[..k], text + [c])
    {
      assert strs[k] == targets[k].str;
      assert strs[..k + 1] == strs[..k] + [strs[k]];
      var complete := targets[k].Advance(c, text);
      if complete {
        return k;
      }
    }
    assert strs[..targets.Length] == strs;
    r := -1;
  }

  /** The reading loop of FindMulti, once no target is empty. */
  method ReadUntilComplete(stream: Stream, targets: array<MultiTarget>) returns (r: int)
    requires forall i, j :: 0 <= i < j < targets.Length ==> targets[i] != targets[j]
    requires Tracking(targets[..], [])
    modifies stream, targets[..]
    ensures Searched(old(stream.pending), stream.pending, old(Strs(targets[..])), r)
    ensures r < 0 ==> Tracking(targets[..], old(stream.pending))
  {
    ghost var text := stream.pending;
    ghost var strs := Strs(targets[..]);
    ghost var n := 0;
    assert text[..0] == [];
    while true
      invariant n <= |text| && stream.pending == text[n..]
      invariant Tracking(targets[..], text[..n])
      invariant NoneEnded(strs, text, n)
      invariant strs == Strs(targets[..])
      decreases |stream.pending|
    {
      var c := stream.TimedRead();
      if c < 0 {
        assert text[..n] == text;
        assert Searched(text, stream.pending, strs, -1);
        return -1;
      }
      assert text[..n + 1] == text[..n] + [c];
      r := FeedAll(targets, c, text[..n], strs);
      StepSearched(text, n, strs, r);
      n := n + 1;
      if r >= 0 {
        return r;
      }
    }
  }

  lemma StepSearched(text: Text, n: nat, strs: seq<Text>, r: int)
    requires n < |text| && NoneEnded(strs, text, n) && -1 <= r < |strs|
    requires r < 0 ==> NoneEndsAt(strs, text[..n + 1])
    requires r >= 0 ==> Ends(strs[r], text[..n + 1]) && NoneEndsAt(strs[..r], text[..n + 1])
    ensures r < 0 ==> NoneEnded(strs, text, n + 1)
    ensures r >= 0 ==> Searched(text, text[n + 1..], strs, r)
  {
  }

  method FindMulti(stream: Stream, targets: array<MultiTarget>) returns (r: int)
    requires forall i :: 0 <= i < targets.Length ==> targets[i].index == 0
    requires forall i, j :: 0 <= i < j < targets.Length ==> targets[i] != targets[j]
    modifies stream, targets[..]
    ensures Searched(old(stream.pending), stream.pending, old(Strs(targets[..])), r)
    ensures r < 0 ==> Tracking(targets[..], old(stream.pending))
  {
    for k := 0 to targets.Length
      invariant forall i :: 0 <= i < k ==> targets[i].str != []
    {
      if |targets[k].str| == 0 {
        return k;
      }
    }
    r := ReadUntilComplete(stream, targets);
  }

  /** Some occurrence of the target ends, and none of the terminator ends before it. */
  ghost predicate FoundFirst(text: Text, target: Text, terminator: Option<Text>) {
    exists n :: 0 <= n <= |text| && EndsBefore(text, n, target, terminator)
  }

  ghost predicate EndsBefore(text: Text, n: nat, target: Text, terminator: Option<Text>)
    requires n <= |text|
  {
    && Ends(target, text[..n])
    && (terminator.Some? ==> forall m :: 0 <= m < n ==> !Ends(terminator.value, text[..m]))
  }

  ghost predicate EitherEnds(text: Text, target: Text, terminator: Option<Text>) {
    Ends(target, text) || (terminator.Some? && Ends(terminator.value, text))
  }

  /** What is left of the text starts right behind the first end of either, or is nothing if neither ends. */
  ghost predicate LeftBehind(text: Text, rest: Text, target: Text, terminator: Option<Text>) {
    && |rest| <= |text|
    && var n := |text| - |rest|;
    && rest == text[n..]
    && (forall m :: 0 <= m < n ==> !EitherEnds(text[..m], target, terminator))
    && (rest == [] || EitherEnds(text[..n], target, terminator))
  }

  method FindUntil(stream: Stream, target: Text, terminator: Option<Text>) returns (found: bool)
    modifies stream
    ensures found <==> FoundFirst(old(stream.pending), target, terminator)
    ensures LeftBehind(old(stream.pending), stream.pending, target, terminator)
    ensures found <==> Ends(target, old(stream.pending)[..|old(stream.pending)| - |stream.pending|])
  {
    ghost var text := stream.pending;
    var t0 := new MultiTarget(target);
    var r;
    match terminator {
      case None =>
        var t := new MultiTarget[1](_ => t0);
        assert Strs(t[..]) == [target];
        r := FindMulti(stream, t);
      case Some(term) =>
        var t1 := new MultiTarget(term);
        var t := new MultiTarget[2](i => if i == 0 then t0 else t1);
        assert Strs(t[..]) == [target, term];
        r := FindMulti(stream, t);
    }
    found := r == 0;
    UntilMeaning(text, stream.pending, target, terminator, r);
    UntilLeaves(text, stream.pending, target, terminator, r);
  }

  lemma UntilLeaves(text: Text, rest: Text, target: Text, terminator: Option<Text>, r: int)
    requires Searched(text, rest, if terminator.Some? then [target, terminator.value] else [target], r)
    ensures LeftBehind(text, rest, target, terminator)
    ensures r == 0 <==> Ends(target, text[..|text| - |rest|])
  {
    var strs := if terminator.Some? then [target, terminator.value] else [target];
    var n := |text| - |rest|;
    forall m | 0 <= m < n ensures !EitherEnds(text[..m], target, terminator) {
      assert NoneEndsAt(strs, text[..m]);
      assert !Ends(strs[0], text[..m]) && (terminator.Some? ==> !Ends(strs[1], text[..m]));
    }
    if r < 0 {
      assert NoneEndsAt(strs, text[..n]);
      assert !Ends(strs[0], text[..n]);
    } else if r == 1 {
      assert !Ends(strs[..1][0], text[..n]);
    }
  }

  lemma UntilMeaning(text: Text, rest: Text, target: Text, terminator: Option<Text>, r: int)
    requires Searched(text, rest, if terminator.Some? then [target, terminator.value] else [target], r)
    ensures r == 0 <==> FoundFirst(text, target, terminator)
  {
    var strs := if terminator.Some? then [target, terminator.value] else [target];
    var n := |text| - |rest|;
    if r == 0 {
      forall m | 0 <= m < n ensures terminator.Some? ==> !Ends(terminator.value, text[..m]) {
        assert NoneEndsAt(strs, text[..m]);
        assert terminator.Some? ==> strs[1] == terminator.value;
      }
      assert EndsBefore(text, n, target, terminator);
    } else {
      forall m | 0 <= m <= |text| ensures !EndsBefore(text, m, target, terminator) {
        if r < 0 || m < n {
          assert NoneEndsAt(strs, text[..m]);
          assert !Ends(strs[0], text[..m]);
        } else if m == n {
          assert strs[..1][0] == target;
        } else {
          assert Ends(strs[1], text[..n]);
        }
      }
    }
  }
}
