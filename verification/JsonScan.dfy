/** Scanning text one character at a time, as the JSON reader does: what each scan finds and where it stops. */
module JsonScan {
  import opened Options

  /** Position of the first `c`, or the length when there is none. */
  function IndexOf(s: string, c: char): (i: nat)
    ensures i <= |s| && (i < |s| ==> s[i] == c)
    ensures forall k :: 0 <= k < i ==> s[k] != c
  {
    if s == "" || s[0] == c then 0 else 1 + IndexOf(s[1..], c)
  }

  /** The text after the first `c`. */
  function After(s: string, c: char): Option<string> {
    var i := IndexOf(s, c);
    if i < |s| then Some(s[i + 1..]) else None
  }

  datatype Extraction = Extracted(text: string, rest: string) | Overrun

  /** The text before the first `c` and the text after it; an error when it does not fit `room` characters. */
  function Extract(s: string, c: char, room: nat): Extraction {
    var i := IndexOf(s, c);
    if i > room then Overrun else Extracted(s[..i], if i < |s| then s[i + 1..] else "")
  }

  /** The text after the characters of `pattern`, each looked for after the one before. */
  function Scan(s: string, pattern: string): Option<string>
    decreases |pattern|
  {
    if pattern == "" then Some(s)
    else
      var rest := After(s, pattern[0]);
      if rest.None? then None else Scan(rest.value, pattern[1..])
  }

  predicate Without(s: string, c: char) {
    forall k :: 0 <= k < |s| ==> s[k] != c
  }

  lemma AfterGap(gap: string, c: char, rest: string)
    requires Without(gap, c)
    ensures IndexOf(gap + [c] + rest, c) == |gap|
    ensures After(gap + [c] + rest, c) == Some(rest)
  {
    var s := gap + [c] + rest;
    assert s[|gap|] == c && forall k :: 0 <= k < |gap| ==> s[k] == gap[k];
    assert s[|gap| + 1..] == rest;
  }

  lemma ExtractGap(text: string, c: char, rest: string, room: nat)
    requires Without(text, c) && |text| <= room
    ensures Extract(text + [c] + rest, c, room) == Extracted(text, rest)
  {
    AfterGap(text, c, rest);
    var s := text + [c] + rest;
    assert s[..|text|] == text && s[|text| + 1..] == rest;
  }

  // ----- greedy search is leftmost subsequence search -----

  /** `e` picks out `pattern` as a subsequence of `s`. */
  predicate Embeds(s: string, pattern: string, e: seq<nat>) {
    && |e| == |pattern|
    && (forall k :: 0 <= k < |e| ==> e[k] < |s| && s[e[k]] == pattern[k])
    && forall j, k :: 0 <= j < k < |e| ==> e[j] < e[k]
  }

  /** Where the scan leaves the cursor. */
  function Consumed(s: string, pattern: string): int
    requires Scan(s, pattern).Some?
  {
    |s| - |Scan(s, pattern).value|
  }

  lemma SuffixAt(s: string, d: nat, k: nat)
    requires d + k < |s|
    ensures s[d..][k] == s[k + d]
  {
  }

  /** The rest of an embedding, counted from position `d`. */
  function Unshifted(e: seq<nat>, d: nat): (r: seq<nat>)
    requires forall k :: 0 < k < |e| ==> e[k] >= d
    requires e != []
    ensures |r| == |e| - 1 && forall k :: 0 <= k < |r| ==> r[k] == e[k + 1] - d
  {
    seq(|e| - 1, k requires 0 <= k < |e| - 1 => e[k + 1] - d)
  }

  /** An embedding that starts at or after `i` embeds the rest of the pattern behind `i`. */
  lemma EmbeddingShrinks(s: string, pattern: string, i: nat, e: seq<nat>)
    requires pattern != "" && Embeds(s, pattern, e) && i <= e[0]
    ensures i < |s| && forall k :: 0 < k < |e| ==> e[k] >= i + 1
    ensures Embeds(s[i + 1..], pattern[1..], Unshifted(e, i + 1))
  {
    var rest := Unshifted(e, i + 1);
    forall k | 0 <= k < |rest|
      ensures rest[k] < |s| - (i + 1) && s[i + 1..][rest[k]] == pattern[1..][k]
    {
      assert rest[k] == e[k + 1] - (i + 1) && s[e[k + 1]] == pattern[k + 1];
      SuffixAt(s, i + 1, rest[k]);
      SuffixAt(pattern, 1, k);
    }
    forall j, k | 0 <= j < k < |rest|
      ensures rest[j] < rest[k]
    {
      assert e[j + 1] < e[k + 1];
    }
  }

  lemma {:induction false} ScanFindsEveryEmbedding(s: string, pattern: string, e: seq<nat>)
    requires Embeds(s, pattern, e)
    ensures Scan(s, pattern).Some?
    ensures pattern != "" ==> Consumed(s, pattern) <= e[|e| - 1] + 1
    decreases |pattern|
  {
    if pattern == "" {
    } else {
      var i := IndexOf(s, pattern[0]);
      assert i <= e[0];
      EmbeddingShrinks(s, pattern, i, e);
      ScanFindsEveryEmbedding(s[i + 1..], pattern[1..], Unshifted(e, i + 1));
    }
  }

  function Shifted(e: seq<nat>, d: nat): (r: seq<nat>)
    ensures |r| == |e| && forall k :: 0 <= k < |e| ==> r[k] == e[k] + d
  {
    seq(|e|, k requires 0 <= k < |e| => e[k] + d)
  }

  /** An embedding of the rest of the pattern after position `i` picks the right characters of the whole text. */
  lemma ExtensionPicks(s: string, pattern: string, i: nat, inner: seq<nat>, k: nat)
    requires i < |s| && pattern != "" && s[i] == pattern[0] && Embeds(s[i + 1..], pattern[1..], inner)
    requires k < |inner|
    ensures inner[k] + (i + 1) < |s| && s[inner[k] + (i + 1)] == pattern[k + 1]
  {
    SuffixAt(s, i + 1, inner[k]);
    SuffixAt(pattern, 1, k);
  }

  lemma ExtensionAt(i: nat, inner: seq<nat>, k: nat)
    requires k <= |inner|
    ensures ([i] + Shifted(inner, i + 1))[k] == if k == 0 then i else inner[k - 1] + (i + 1)
  {
  }

  /** So it extends to an embedding of the whole pattern. */
  lemma EmbeddingExtends(s: string, pattern: string, i: nat, inner: seq<nat>)
    requires i < |s| && pattern != "" && s[i] == pattern[0] && Embeds(s[i + 1..], pattern[1..], inner)
    ensures Embeds(s, pattern, [i] + Shifted(inner, i + 1))
  {
    var e := [i] + Shifted(inner, i + 1);
    forall k | 0 <= k < |e|
      ensures e[k] < |s| && s[e[k]] == pattern[k]
    {
      ExtensionAt(i, inner, k);
      if k > 0 {
        ExtensionPicks(s, pattern, i, inner, k - 1);
      }
    }
    forall j, k | 0 <= j < k < |e|
      ensures e[j] < e[k]
    {
      ExtensionAt(i, inner, j);
      ExtensionAt(i, inner, k);
    }
  }

  lemma {:induction false} ScanIsSuffix(s: string, pattern: string)
    requires Scan(s, pattern).Some?
    ensures 0 <= Consumed(s, pattern) <= |s| && Scan(s, pattern).value == s[Consumed(s, pattern)..]
    decreases |pattern|
  {
    if pattern == "" {
    } else {
      ScanIsSuffix(s[IndexOf(s, pattern[0]) + 1..], pattern[1..]);
    }
  }

  lemma {:induction false} ScanIsEmbedding(s: string, pattern: string) returns (e: seq<nat>)
    requires Scan(s, pattern).Some?
    ensures Embeds(s, pattern, e)
    ensures pattern != "" ==> e[|e| - 1] + 1 == Consumed(s, pattern)
    decreases |pattern|
  {
    if pattern == "" {
      e := [];
    } else {
      var i := IndexOf(s, pattern[0]);
      var inner := ScanIsEmbedding(s[i + 1..], pattern[1..]);
      EmbeddingExtends(s, pattern, i, inner);
      e := [i] + Shifted(inner, i + 1);
    }
  }

  /** The search succeeds exactly when the pattern is a subsequence of the text; the cursor then rests just after an
      embedding, and no embedding ends earlier. */
  lemma ScanIsLeftmost(s: string, pattern: string)
    ensures Scan(s, pattern).Some? <==> exists e :: Embeds(s, pattern, e)
    ensures Scan(s, pattern).Some? && pattern != "" ==>
              (exists e :: Embeds(s, pattern, e) && e[|e| - 1] + 1 == Consumed(s, pattern))
              && forall e :: Embeds(s, pattern, e) ==> Consumed(s, pattern) <= e[|e| - 1] + 1
  {
    forall e | Embeds(s, pattern, e)
      ensures Scan(s, pattern).Some? && (pattern != "" ==> Consumed(s, pattern) <= e[|e| - 1] + 1)
    {
      ScanFindsEveryEmbedding(s, pattern, e);
    }
    if Scan(s, pattern).Some? {
      var e := ScanIsEmbedding(s, pattern);
      assert Embeds(s, pattern, e);
    }
  }
}
