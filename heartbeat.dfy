/** The reserved heartbeat marker and the one-pass removal of it that the
    consoles apply to received text (Python's `str.replace(HEARTBEAT, '')`). */
module Heartbeat {

  /** The literal sent by every liveness probe. */
  const HEARTBEAT: string := "__HB__"

  /** The marker starts at index `i` of `s`. */
  ghost predicate OccursAt(s: string, i: int)
  {
    0 <= i && i + |HEARTBEAT| <= |s| && s[i..i + |HEARTBEAT|] == HEARTBEAT
  }

  ghost predicate ContainsHeartbeat(s: string)
  {
    exists i :: OccursAt(s, i)
  }

  /** `n` markers back to back: what a peer sends when it sends nothing but probes. */
  function Beats(n: nat): (r: string)
    ensures |r| == n * |HEARTBEAT|
  {
    if n == 0 then "" else HEARTBEAT + Beats(n - 1)
  }

  /** One left-to-right pass that deletes non-overlapping occurrences of the
      marker; the text that remains is not scanned again. */
  function Strip(s: string): (r: string)
    ensures |r| <= |s|
    ensures (|s| - |r|) % |HEARTBEAT| == 0
    decreases |s|
  {
    if s == [] then []
    else if HEARTBEAT <= s then Strip(s[|HEARTBEAT|..])
    else [s[0]] + Strip(s[1..])
  }

  /** `k` successive passes of `Strip`: what a value stripped at each of `k`
      nested levels becomes. */
  function StripN(k: nat, s: string): (r: string)
    ensures |r| <= |s|
    ensures (|s| - |r|) % |HEARTBEAT| == 0
    ensures k > 0 ==> |Strip(s)| >= |r|
  {
    if k == 0 then s else Strip(StripN(k - 1, s))
  }

  lemma {:induction false} StripBeats(n: nat)
    ensures Strip(Beats(n)) == ""
  {
    if n > 0 {
      var b := Beats(n);
      assert b == HEARTBEAT + Beats(n - 1);
      assert b[..|HEARTBEAT|] == HEARTBEAT;
      assert b[|HEARTBEAT|..] == Beats(n - 1);
      StripBeats(n - 1);
    }
  }

  /** A received chunk counts as empty exactly when it is made of whole markers. */
  lemma {:induction false} StripEmptyIff(s: string)
    ensures Strip(s) == "" <==> s == Beats(|s| / |HEARTBEAT|)
    decreases |s|
  {
    if s == Beats(|s| / |HEARTBEAT|) {
      StripBeats(|s| / |HEARTBEAT|);
    }
    if Strip(s) == "" && s != [] {
      if HEARTBEAT <= s {
        var t := s[|HEARTBEAT|..];
        StripEmptyIff(t);
        assert |s| / |HEARTBEAT| == |t| / |HEARTBEAT| + 1;
        assert s == HEARTBEAT + t;
      }
    }
  }

  lemma {:induction false} StripKeepsUnmarked(s: string)
    requires !ContainsHeartbeat(s)
    ensures Strip(s) == s
    decreases |s|
  {
    if s != [] {
      if HEARTBEAT <= s {
        assert s[0..|HEARTBEAT|] == HEARTBEAT;
        assert OccursAt(s, 0);
      } else {
        var t := s[1..];
        forall j | OccursAt(t, j) ensures false {
          assert s[j + 1..j + 1 + |HEARTBEAT|] == t[j..j + |HEARTBEAT|];
          assert OccursAt(s, j + 1);
        }
        StripKeepsUnmarked(t);
        assert s == [s[0]] + t;
      }
    }
  }

  lemma {:induction false} StripShrinksMarked(s: string, i: int)
    requires OccursAt(s, i)
    ensures |Strip(s)| < |s|
    decreases |s|
  {
    if !(HEARTBEAT <= s) {
      var t := s[1..];
      assert t[i - 1..i - 1 + |HEARTBEAT|] == s[i..i + |HEARTBEAT|];
      StripShrinksMarked(t, i - 1);
    }
  }

  /** Stripping changes a chunk exactly when the chunk holds the marker. */
  lemma StripUnchangedIff(s: string)
    ensures Strip(s) == s <==> !ContainsHeartbeat(s)
  {
    if ContainsHeartbeat(s) {
      var i :| OccursAt(s, i);
      StripShrinksMarked(s, i);
    } else {
      StripKeepsUnmarked(s);
    }
  }

  /** One pass can leave a marker behind: the result of stripping may still hold
      it, so stripping is not idempotent. */
  lemma StripCanLeaveMarker()
    ensures Strip("__H__HB__B__") == HEARTBEAT
    ensures ContainsHeartbeat(Strip("__H__HB__B__"))
  {
    var s := "__H__HB__B__";
    assert Strip("") == "";
    assert Strip("_") == "_";
    assert Strip("__") == "__";
    assert Strip("B__") == "B__";
    assert s[3..][..|HEARTBEAT|] == HEARTBEAT;
    assert s[3..][|HEARTBEAT|..] == "B__";
    assert Strip(s[3..]) == "B__";
    assert !(HEARTBEAT <= s[2..]);
    assert s[2..][1..] == s[3..];
    assert Strip(s[2..]) == "HB__";
    assert !(HEARTBEAT <= s[1..]);
    assert s[1..][1..] == s[2..];
    assert Strip(s[1..]) == "_HB__";
    assert !(HEARTBEAT <= s);
    assert Strip(s) == "__HB__";
    assert HEARTBEAT[0..|HEARTBEAT|] == HEARTBEAT;
    assert OccursAt(HEARTBEAT, 0);
  }
}
