/** Cleaning the model's reply before it is stored as the generated code
    (app.py:212-215): strip surrounding whitespace, and if what is left opens
    with a Markdown code fence, delete every "```python" and then every "```". */
module Clean {
  import opened Strings

  const Fence := "```"
  const PythonFence := "```python"

  /** Three backticks start at index `i` of `s`. */
  predicate FenceAt(s: string, i: int)
  {
    0 <= i <= |s| - 3 && s[i] == '`' && s[i + 1] == '`' && s[i + 2] == '`'
  }

  /** No three consecutive backticks anywhere in `s`. */
  predicate FenceFree(s: string)
  {
    forall i | 0 <= i <= |s| - 3 :: !FenceAt(s, i)
  }

  /** What a stored piece of generated code looks like: either a stripped
      string that does not open with a fence, or a string with no fence at all. */
  predicate Cleaned(code: string)
  {
    (Stripped(code) && !StartsWith(code, Fence)) || FenceFree(code)
  }

  /** The cleaned reply. A reply that does not open with a fence once stripped
      is returned stripped and otherwise unchanged; one that does comes back
      with no fence left in it. There is no second strip after the fences are
      deleted. */
  function CleanResponse(reply: string): (code: string)
    ensures !StartsWith(Strip(reply), Fence) ==> code == Strip(reply)
    ensures StartsWith(Strip(reply), Fence) ==> FenceFree(code)
    ensures |code| <= |reply|
    ensures Cleaned(code)
  {
    var stripped := Strip(reply);
    if StartsWith(stripped, Fence) then
      var noPython := ReplaceAll(stripped, PythonFence, "");
      FenceRemovalLeavesNoFence(noPython);
      ReplaceAll(noPython, Fence, "")
    else stripped
  }

  /** A string that does not start with a backtick keeps its first character
      through fence removal. */
  lemma FirstCharKept(s: string)
    requires |s| > 0 && s[0] != '`'
    ensures |ReplaceAll(s, Fence, "")| > 0 && ReplaceAll(s, Fence, "")[0] == s[0]
  {
    if |s| >= 3 {
      assert s[..3][0] == s[0];
    }
  }

  /** Deleting every "```" left to right never leaves a "```" behind: the
      left-to-right scan always removes the earliest run of three, so the
      pieces it joins cannot form a new one. */
  lemma {:induction false} FenceRemovalLeavesNoFence(s: string)
    ensures FenceFree(ReplaceAll(s, Fence, ""))
    decreases |s|
  {
    if |s| < 3 {
      ReplaceAllShort(s, Fence, "");
    } else if s[..3] == Fence {
      FenceRemovalLeavesNoFence(s[3..]);
      var rest := ReplaceAll(s[3..], Fence, "");
      assert ReplaceAll(s, Fence, "") == "" + rest;
      assert "" + rest == rest;
    } else {
      FenceRemovalLeavesNoFence(s[1..]);
      NoFenceAtFront(s);
      var r := ReplaceAll(s, Fence, "");
      var rest := ReplaceAll(s[1..], Fence, "");
      assert r == [s[0]] + rest;
      forall i | 1 <= i
        ensures !FenceAt(r, i)
      {
        assert !FenceAt(rest, i - 1);
      }
    }
  }

  /** When `s` does not open with a fence, fence removal does not make one
      at the front either. */
  lemma NoFenceAtFront(s: string)
    requires |s| >= 3 && s[..3] != Fence
    ensures !FenceAt(ReplaceAll(s, Fence, ""), 0)
  {
    var r := ReplaceAll(s, Fence, "");
    var rest := ReplaceAll(s[1..], Fence, "");
    assert r == [s[0]] + rest;
    if s[0] == '`' && |r| >= 3 {
      if s[1] != '`' {
        FirstCharKept(s[1..]);
      } else {
        assert s[2] != '`' by { assert s[..3] == [s[0], s[1], s[2]]; }
        var t := s[1..];
        if |t| >= 3 {
          assert t[..3] != Fence by { assert t[..3][1] == t[1]; }
          FirstCharKept(t[1..]);
          assert rest == [t[0]] + ReplaceAll(t[1..], Fence, "");
        } else {
          ReplaceAllShort(t, Fence, "");
        }
        assert r[2] == s[2];
      }
    }
  }

  /** A second cleaning only strips: whatever the reply, cleaning the stored
      code again gives that code stripped. Since fence removal is not followed
      by a strip, this is where cleaning fails to be idempotent. */
  lemma CleanTwiceIsStrip(reply: string)
    ensures CleanResponse(CleanResponse(reply)) == Strip(CleanResponse(reply))
  {
    CleanedStripsUnfenced(CleanResponse(reply));
  }

  /** Code in cleaned form never opens with a fence once stripped. */
  lemma CleanedStripsUnfenced(code: string)
    requires Cleaned(code)
    ensures !StartsWith(Strip(code), Fence)
  {
    if Stripped(code) && !StartsWith(code, Fence) {
      StripKeepsStripped(code);
    } else {
      FenceFreeStripsUnfenced(code);
    }
  }

  /** Stripping a string with no fence in it cannot expose one. */
  lemma FenceFreeStripsUnfenced(code: string)
    requires FenceFree(code)
    ensures !StartsWith(Strip(code), Fence)
  {
    var r := Strip(code);
    if |r| >= 3 {
      var k :| 0 <= k <= |code| - |r| && code[k..k + |r|] == r && AllSpace(code[..k]) && AllSpace(code[k + |r|..]);
      assert !FenceAt(code, k);
      assert r[0] == code[k] && r[1] == code[k + 1] && r[2] == code[k + 2];
      assert r[..3][0] == r[0] && r[..3][1] == r[1] && r[..3][2] == r[2];
    }
  }

  /** Cleaning a reply that does not open with a fence twice gives what
      cleaning it once gives. */
  lemma CleanResponseIdempotentUnfenced(reply: string)
    requires !StartsWith(Strip(reply), Fence)
    ensures CleanResponse(CleanResponse(reply)) == CleanResponse(reply)
  {
    CleanTwiceIsStrip(reply);
    StripIdempotent(reply);
  }

  /** A reply made of one Python-fenced block whose body holds no backtick
      cleans to exactly that body, with the newlines that stood just inside
      the fences still in place. */
  lemma FencedBlockCleansToBody(body: string)
    requires forall i :: 0 <= i < |body| ==> body[i] != '`'
    ensures CleanResponse(PythonFence + body + Fence) == body
  {
    var reply := PythonFence + body + Fence;
    assert reply[..3] == Fence;
    StripKeepsStripped(reply);
    RemoveFencesFromBlock(body);
  }

  /** Deleting the fences around such a block leaves its body. */
  lemma RemoveFencesFromBlock(body: string)
    requires forall i :: 0 <= i < |body| ==> body[i] != '`'
    ensures ReplaceAll(ReplaceAll(PythonFence + body + Fence, PythonFence, ""), Fence, "") == body
  {
    assert PythonFence[0] == Fence[0] == '`';
    JoinAssoc(PythonFence, body, Fence);
    ReplaceAllAtMatch(PythonFence, body + Fence, "");
    ReplaceAllKeepsPrefix(body, Fence, PythonFence, "");
    ReplaceAllShort(Fence, PythonFence, "");
    assert ReplaceAll(PythonFence + body + Fence, PythonFence, "") == body + Fence;
    ReplaceAllKeepsPrefix(body, Fence, Fence, "");
    ReplaceAllAtMatch(Fence, [], "");
    assert Fence + [] == Fence;
    assert ReplaceAll(Fence, Fence, "") == [];
  }

  /** Cleaning such a block a second time strips the body as well. */
  lemma FencedBlockCleansTwice(body: string)
    requires forall i :: 0 <= i < |body| ==> body[i] != '`'
    ensures CleanResponse(CleanResponse(PythonFence + body + Fence)) == Strip(body)
  {
    FencedBlockCleansToBody(body);
    CleanTwiceIsStrip(PythonFence + body + Fence);
  }
}
