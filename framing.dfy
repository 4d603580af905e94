/** Line framing of the wire protocol. A request line may carry the sentinel
    "&gt;", which the server deletes (string.Replace with an empty string)
    before decoding; every response line is the JSON text followed by " &gt;". */
module Framing {
  import opened Wrappers
  import opened Strings

  /** The end-of-message sentinel. */
  const Sentinel: string := "&gt;"

  /** What the server appends to every serialized response. */
  const ResponseSuffix: string := " &gt;"

  /** .NET string.Replace(pat, ""): one left-to-right scan that deletes each
      non-overlapping match; text produced by a deletion is not scanned again. */
  function RemoveAll(s: string, pat: string): (r: string)
    requires pat != []
    ensures |r| <= |s|
    decreases |s|
  {
    if |s| < |pat| then s
    else if s[..|pat|] == pat then RemoveAll(s[|pat|..], pat)
    else [s[0]] + RemoveAll(s[1..], pat)
  }

  /** The incoming-line transformation: every sentinel is deleted. The line
      comes back unchanged exactly when it holds no sentinel, and is never
      longer. */
  function StripSentinel(line: string): (r: string)
    ensures |r| <= |line|
    ensures r == line <==> !Contains(line, Sentinel)
  {
    if Contains(line, Sentinel) then
      var k :| 0 <= k <= |line| && OccursAt(line, Sentinel, k);
      RemoveAllShrinks(line, Sentinel, k);
      RemoveAll(line, Sentinel)
    else
      RemoveAllNoMatch(line, Sentinel);
      RemoveAll(line, Sentinel)
  }

  /** The outgoing-line transformation: the JSON text is kept as it is and
      followed by a space and the sentinel. */
  function Frame(json: string): (r: string)
    ensures |r| == |json| + |ResponseSuffix|
    ensures r[..|json|] == json
    ensures EndsWith(r, Sentinel)
  {
    var r := json + ResponseSuffix;
    assert r[|r| - |Sentinel|..] == Sentinel;
    r
  }

  /** How a peer recovers the JSON text of a response line: the line must end
      with " &gt;", which is cut off. */
  function Unframe(line: string): Option<string>
  {
    if EndsWith(line, ResponseSuffix) then Some(line[..|line| - |ResponseSuffix|]) else None
  }

  /** Every response line ends with the sentinel, and the peer recovers exactly
      the JSON text that was framed. */
  lemma FrameRoundTrip(json: string)
    ensures EndsWith(Frame(json), Sentinel)
    ensures Unframe(Frame(json)) == Some(json)
  {
    var line := Frame(json);
    assert line[|line| - |ResponseSuffix|..] == ResponseSuffix;
    assert line[|line| - |Sentinel|..] == Sentinel;
    assert line[..|line| - |ResponseSuffix|] == json;
  }

  /** Unframe accepts only framed lines: whatever it returns frames back to the
      very same line. */
  lemma UnframeInverse(line: string, json: string)
    requires Unframe(line) == Some(json)
    ensures Frame(json) == line
  {
    assert line == line[..|line| - |ResponseSuffix|] + line[|line| - |ResponseSuffix|..];
  }

  /** A text with no match passes through the deletion scan unchanged. */
  lemma {:induction false} RemoveAllNoMatch(s: string, pat: string)
    requires pat != []
    requires !Contains(s, pat)
    ensures RemoveAll(s, pat) == s
    decreases |s|
  {
    if |s| >= |pat| {
      assert !OccursAt(s, pat, 0);
      var t := s[1..];
      if Contains(t, pat) {
        var i :| 0 <= i <= |t| && OccursAt(t, pat, i);
        assert t[i..i + |pat|] == s[i + 1..i + 1 + |pat|];
        assert OccursAt(s, pat, i + 1);
        assert false;
      }
      RemoveAllNoMatch(t, pat);
      assert [s[0]] + t == s;
    }
  }

  /** A text with a match loses at least one character in the scan: the scan
      either deletes that match or a match overlapping it. */
  lemma {:induction false} RemoveAllShrinks(s: string, pat: string, k: int)
    requires pat != []
    requires OccursAt(s, pat, k)
    ensures |RemoveAll(s, pat)| < |s|
    decreases k
  {
    if s[..|pat|] != pat {
      assert k != 0;
      var t := s[1..];
      assert t[k - 1..k - 1 + |pat|] == s[k..k + |pat|];
      RemoveAllShrinks(t, pat, k - 1);
    }
  }

  /** A sentinel anywhere in a line is deleted: when the text before the
      first sentinel holds none, the strip keeps that text, drops the
      sentinel and goes on with the rest of the line. This needs the fact
      that "&gt;" cannot overlap itself: its only '&' is its first
      character. */
  lemma StripSplit(a: string, b: string)
    requires !Contains(a, Sentinel)
    ensures StripSentinel(a + Sentinel + b) == a + StripSentinel(b)
  {
    RemoveSentinelSplit(a, b);
  }

  /** StripSplit for the deletion scan itself, proved by induction on the
      text before the sentinel. */
  lemma {:induction false} RemoveSentinelSplit(a: string, b: string)
    requires !Contains(a, Sentinel)
    ensures RemoveAll(a + Sentinel + b, Sentinel) == a + RemoveAll(b, Sentinel)
    decreases |a|
  {
    var t := a + Sentinel + b;
    if a == [] {
      assert t[..4] == Sentinel && t[4..] == b;
    } else {
      assert t[..4] != Sentinel by {
        if |a| >= 4 {
          assert a[..4] == t[..4];
          assert !OccursAt(a, Sentinel, 0);
        } else {
          assert t[..4][|a|] == t[|a|] == '&';
          assert Sentinel[|a|] != '&';
        }
      }
      var u := a[1..];
      if Contains(u, Sentinel) {
        var i :| 0 <= i <= |u| && OccursAt(u, Sentinel, i);
        assert u[i..i + 4] == a[i + 1..i + 5];
        assert OccursAt(a, Sentinel, i + 1);
        assert false;
      }
      RemoveSentinelSplit(u, b);
      assert t[1..] == u + Sentinel + b;
      assert [a[0]] + (u + RemoveAll(b, Sentinel)) == a + RemoveAll(b, Sentinel);
    }
  }

  /** Stripping a request with the sentinel appended gives the request back,
      provided the request itself holds no sentinel. */
  lemma StripAppendedSentinel(s: string)
    requires !Contains(s, Sentinel)
    ensures StripSentinel(s + Sentinel) == s
  {
    StripSplit(s, []);
    assert s + Sentinel + [] == s + Sentinel;
    assert StripSentinel([]) == [];
  }

  /** A peer that applies the server's own strip to a response line gets the
      JSON text plus the separating space back, when the JSON holds no
      sentinel. */
  lemma StripResponse(json: string)
    requires !Contains(json, Sentinel)
    ensures StripSentinel(Frame(json)) == json + " "
  {
    var s := json + " ";
    forall i | 0 <= i <= |s| ensures !OccursAt(s, Sentinel, i) {
      if i + 4 <= |json| {
        assert s[i..i + 4] == json[i..i + 4];
        assert !OccursAt(json, Sentinel, i);
      } else if i + 4 <= |s| {
        assert s[i..i + 4][3] == s[|s| - 1] == ' ';
      }
    }
    StripAppendedSentinel(s);
    assert Frame(json) == s + Sentinel;
  }

  /** The strip is a single pass: removing a sentinel can bring a new one
      together, and that one stays. */
  lemma StripIsSinglePass()
    ensures StripSentinel("&g&gt;t;") == "&gt;"
    ensures StripSentinel(StripSentinel("&g&gt;t;")) == ""
  {
    assert "&g&gt;t;"[1..] == "g&gt;t;";
    assert "g&gt;t;"[1..] == "&gt;t;";
    assert "&gt;t;"[4..] == "t;";
    assert "t;"[1..] == ";";
    assert ";"[1..] == "";
    assert "&gt;"[4..] == "";
  }
}
