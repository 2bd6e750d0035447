/** The Photoshop resource-block blob stored in TIFF tag 34377 and the
    legacy channel-rename patch that rewrites it in place (pstemplate.h).

    The blob is a sequence of Image Resource Blocks as laid out by the Adobe
    Photoshop File Format Specification: the signature "8BIM", a big-endian
    16-bit resource id, a Pascal name padded so that 1 + length is even, a
    big-endian 32-bit data size, and the data padded to an even length.  The
    patch never changes the length of anything: it only overwrites bytes.

    Each in-place routine is a method over an array region [off, off + n),
    which is how the source passes `data + dataOff` and a size.  Each method is
    proved against a function that follows the source's own loop over the
    bytes as they are being rewritten; lemmas then relate those functions to
    independent descriptions (where the pattern occurs in the original bytes,
    which entries the name list holds, which records the blob holds). */
module PsTemplate {
  import opened Bytes
  import opened Wrappers

  /** What the writer uses of a loaded template (the PsTemplate object after
      load): the tag-34377 blob and the samples-per-pixel and extra-sample
      count of the template file. */
  datatype Template = Template(ps34377: seq<Byte>, spp: U16, extra: U16)

  /** A rewritten byte range and whether the patch reported a change. */
  datatype Patch = Patch(data: seq<Byte>, changed: bool)

  // ---------------------------------------------------------------------------
  // replaceBytes
  // ---------------------------------------------------------------------------

  /** `pattern` occurs in s at offset j. */
  predicate WindowAt(s: seq<Byte>, pattern: seq<Byte>, j: nat)
  {
    j + |pattern| <= |s| && s[j .. j + |pattern|] == pattern
  }

  /** `pattern` occurs in s at some offset i or later. */
  ghost predicate HasWindowFrom(s: seq<Byte>, pattern: seq<Byte>, i: nat)
  {
    exists j: nat :: i <= j && WindowAt(s, pattern, j)
  }

  /** t is s with some bytes equal to x turned into y, and nothing else changed. */
  ghost predicate OnlyRewrites(s: seq<Byte>, t: seq<Byte>, x: Byte, y: Byte)
  {
    |t| == |s| && forall k :: 0 <= k < |s| ==> t[k] == s[k] || (s[k] == x && t[k] == y)
  }

  /** from and to have the same length and agree everywhere except at index d. */
  ghost predicate DiffersOnlyAt(from: seq<Byte>, to: seq<Byte>, d: nat)
  {
    |from| == |to| && d < |from| && forall k :: 0 <= k < |from| && k != d ==> from[k] == to[k]
  }

  /** The scanning loop of replaceBytes from window i on: every window that
      matches `from` in the buffer as already rewritten is overwritten with `to`. */
  function ReplaceScan(s: seq<Byte>, from: seq<Byte>, to: seq<Byte>, i: nat, changed: bool): Patch
    requires 0 < |from| == |to|
    decreases |s| - i
  {
    if i + |from| > |s| then Patch(s, changed)
    else if WindowAt(s, from, i) then
      ReplaceScan(s[..i] + to + s[i + |from|..], from, to, i + 1, true)
    else
      ReplaceScan(s, from, to, i + 1, changed)
  }

  /** replaceBytes as a function of the bytes it is given: the argument guard,
      then the scan.  The result has the same length; it reports a change
      exactly when the guard passes and `from` occurs in the ORIGINAL bytes
      (an earlier rewrite can hide a later occurrence, but only after a change
      has already been reported); when it reports none, no byte changed. */
  function Replaced(s: seq<Byte>, from: seq<Byte>, to: seq<Byte>): (r: Patch)
    ensures |r.data| == |s|
    ensures r.changed <==> 0 < |from| == |to| && HasWindowFrom(s, from, 0)
    ensures !r.changed ==> r.data == s
  {
    if |from| != |to| || |from| == 0 || |s| < |from| then
      assert |s| < |from| ==> !HasWindowFrom(s, from, 0);
      Patch(s, false)
    else
      ScanFacts(s, from, to, 0, false);
      ReplaceScan(s, from, to, 0, false)
  }

  lemma {:induction false} ScanFacts(s: seq<Byte>, from: seq<Byte>, to: seq<Byte>, i: nat, c: bool)
    requires 0 < |from| == |to|
    ensures |ReplaceScan(s, from, to, i, c).data| == |s|
    ensures ReplaceScan(s, from, to, i, c).changed <==> c || HasWindowFrom(s, from, i)
    ensures !HasWindowFrom(s, from, i) ==> ReplaceScan(s, from, to, i, c).data == s
    decreases |s| - i
  {
    if i + |from| > |s| {
      assert !HasWindowFrom(s, from, i);
    } else if WindowAt(s, from, i) {
      ScanFacts(s[..i] + to + s[i + |from|..], from, to, i + 1, true);
    } else {
      ScanFacts(s, from, to, i + 1, c);
      if HasWindowFrom(s, from, i) {
        var j: nat :| i <= j && WindowAt(s, from, j);
        assert j != i;
        assert HasWindowFrom(s, from, i + 1);
      }
    }
  }

  lemma OnlyRewritesTrans(s: seq<Byte>, t: seq<Byte>, u: seq<Byte>, x: Byte, y: Byte)
    requires OnlyRewrites(s, t, x, y) && OnlyRewrites(t, u, x, y)
    ensures OnlyRewrites(s, u, x, y)
  {
  }

  /** When `to` differs from `from` in one position d only, the scan can only
      have turned bytes equal to from[d] into to[d], however the rewritten
      windows overlap. */
  lemma {:induction false} ScanOnlyRewrites(s: seq<Byte>, from: seq<Byte>, to: seq<Byte>, i: nat, c: bool, d: nat)
    requires 0 < |from| && DiffersOnlyAt(from, to, d)
    ensures OnlyRewrites(s, ReplaceScan(s, from, to, i, c).data, from[d], to[d])
    decreases |s| - i
  {
    if i + |from| > |s| {
    } else if WindowAt(s, from, i) {
      var s' := s[..i] + to + s[i + |from|..];
      forall k | 0 <= k < |s|
        ensures s'[k] == s[k] || (s[k] == from[d] && s'[k] == to[d])
      {
        if i <= k < i + |from| {
          assert s'[k] == to[k - i] && s[k] == from[k - i];
        } else {
          assert s'[k] == s[k];
        }
      }
      ScanOnlyRewrites(s', from, to, i + 1, true, d);
      OnlyRewritesTrans(s, s', ReplaceScan(s', from, to, i + 1, true).data, from[d], to[d]);
    } else {
      ScanOnlyRewrites(s, from, to, i + 1, c, d);
    }
  }

  /** replaceBytes with a one-byte difference between the patterns turns only
      bytes equal to from[d] into to[d]; all other bytes keep their value. */
  lemma ReplacedOnlyRewrites(s: seq<Byte>, from: seq<Byte>, to: seq<Byte>, d: nat)
    requires DiffersOnlyAt(from, to, d)
    ensures OnlyRewrites(s, Replaced(s, from, to).data, from[d], to[d])
  {
    if |s| >= |from| {
      ScanOnlyRewrites(s, from, to, 0, false, d);
    }
  }

  /** replaceBytes(p + off, n, from, fromN, to, toN): overwrites, left to right,
      every window of the region that matches `from` when it is reached. */
  method ReplaceBytes(p: array<Byte>, off: nat, n: nat, from: seq<Byte>, to: seq<Byte>) returns (changed: bool)
    requires off + n <= p.Length
    modifies p
    ensures p[..off] == old(p[..off]) && p[off + n..] == old(p[off + n..])
    ensures p[off .. off + n] == Replaced(old(p[off .. off + n]), from, to).data
    ensures changed == Replaced(old(p[off .. off + n]), from, to).changed
  {
    if |from| != |to| || |from| == 0 || n < |from| {
      return false;
    }
    ghost var region0 := p[off .. off + n];
    changed := false;
    var i := 0;
    while i + |from| <= n
      invariant i <= n
      invariant p[..off] == old(p[..off]) && p[off + n..] == old(p[off + n..])
      invariant ReplaceScan(p[off .. off + n], from, to, i, changed) == ReplaceScan(region0, from, to, 0, false)
      decreases n - i
    {
      ghost var region := p[off .. off + n];
      ScanStep(region, from, to, i, changed);
      var hit := ReplaceWindow(p, off, n, i, from, to);
      changed := changed || hit;
      i := i + 1;
    }
  }

  /** One window of replaceBytes: compare the bytes at window offset i with
      `from` and, when they match, copy `to` over them. */
  method ReplaceWindow(p: array<Byte>, off: nat, n: nat, i: nat, from: seq<Byte>, to: seq<Byte>) returns (hit: bool)
    requires off + n <= p.Length && i + |from| <= n && |from| == |to|
    modifies p
    ensures hit == (old(p[off .. off + n])[i .. i + |from|] == from)
    ensures p[..off] == old(p[..off]) && p[off + n..] == old(p[off + n..])
    ensures p[off .. off + n] ==
      if hit then old(p[off .. off + n])[..i] + to + old(p[off .. off + n])[i + |from|..] else old(p[off .. off + n])
  {
    SliceOfSlice(p, off, n, i, |from|);
    hit := p[off + i .. off + i + |from|] == from;
    if hit {
      WriteWindow(p, off, n, i, to);
    }
  }

  /** Proof helper (index arithmetic): a window of a window of p is a
      window of p. */
  lemma SliceOfSlice(p: array<Byte>, off: nat, n: nat, i: nat, m: nat)
    requires off + n <= p.Length && i + m <= n
    ensures p[off .. off + n][i .. i + m] == p[off + i .. off + i + m]
  {
    var w, v := p[off .. off + n][i .. i + m], p[off + i .. off + i + m];
    forall k | 0 <= k < m ensures w[k] == v[k] {
      assert w[k] == p[off + i + k];
    }
  }

  /** One window of the scan: a match is overwritten and the scan goes on at
      the next window with the change reported, otherwise it just goes on. */
  lemma ScanStep(s: seq<Byte>, from: seq<Byte>, to: seq<Byte>, i: nat, c: bool)
    requires 0 < |from| == |to| && i + |from| <= |s|
    ensures ReplaceScan(s, from, to, i, c) ==
      if s[i .. i + |from|] == from then ReplaceScan(s[..i] + to + s[i + |from|..], from, to, i + 1, true)
      else ReplaceScan(s, from, to, i + 1, c)
  {
  }

  /** The memcpy of one matching window: the bytes of `to` at window offset i
      of the region [off, off + n), nothing else changed. */
  method WriteWindow(p: array<Byte>, off: nat, n: nat, i: nat, to: seq<Byte>)
    requires off + n <= p.Length && i + |to| <= n
    modifies p
    ensures p[..off] == old(p[..off]) && p[off + n..] == old(p[off + n..])
    ensures p[off .. off + n] == old(p[off .. off + n])[..i] + to + old(p[off .. off + n])[i + |to|..]
  {
    ghost var region := p[off .. off + n];
    forall k | 0 <= k < |to| {
      p[off + i + k] := to[k];
    }
    ghost var r := region[..i] + to + region[i + |to|..];
    forall k | 0 <= k < n ensures p[off + k] == r[k] {
      if i <= k < i + |to| {
        assert p[off + i + (k - i)] == to[k - i];
      }
    }
    assert p[off .. off + n] == r;
  }

  // ---------------------------------------------------------------------------
  // patch1045_W1W2_to_A1A2: fixed-width UTF-16 renames in resource 1045
  // ---------------------------------------------------------------------------

  const W1_BE: seq<Byte> := [0x00, 0x57, 0x00, 0x31]
  const W2_BE: seq<Byte> := [0x00, 0x57, 0x00, 0x32]
  const A1_BE: seq<Byte> := [0x00, 0x41, 0x00, 0x31]
  const A2_BE: seq<Byte> := [0x00, 0x41, 0x00, 0x32]
  const W1_LE: seq<Byte> := [0x57, 0x00, 0x31, 0x00]
  const W2_LE: seq<Byte> := [0x57, 0x00, 0x32, 0x00]
  const A1_LE: seq<Byte> := [0x41, 0x00, 0x31, 0x00]
  const A2_LE: seq<Byte> := [0x41, 0x00, 0x32, 0x00]

  /** The four replacements of patch1045, each on the output of the previous
      one; the change flags are or-ed, and every call is made. */
  function Patched1045(s: seq<Byte>): (r: Patch)
    ensures |r.data| == |s|
    ensures r.changed <==>
      HasWindowFrom(s, W1_BE, 0) || HasWindowFrom(s, W2_BE, 0) ||
      HasWindowFrom(s, W1_LE, 0) || HasWindowFrom(s, W2_LE, 0)
  {
    var p1 := Replaced(s, W1_BE, A1_BE);
    var p2 := Replaced(p1.data, W2_BE, A2_BE);
    var p3 := Replaced(p2.data, W1_LE, A1_LE);
    var p4 := Replaced(p3.data, W2_LE, A2_LE);
    Patch(p4.data, p1.changed || p2.changed || p3.changed || p4.changed)
  }

  /** The 1045 patch only ever turns a 'W' (0x57) into an 'A' (0x41): every
      pattern pair differs in exactly that byte. */
  lemma Patched1045OnlyTurnsWIntoA(s: seq<Byte>)
    ensures OnlyRewrites(s, Patched1045(s).data, 0x57, 0x41)
  {
    var p1 := Replaced(s, W1_BE, A1_BE);
    var p2 := Replaced(p1.data, W2_BE, A2_BE);
    var p3 := Replaced(p2.data, W1_LE, A1_LE);
    assert DiffersOnlyAt(W1_BE, A1_BE, 1) && DiffersOnlyAt(W2_BE, A2_BE, 1);
    assert DiffersOnlyAt(W1_LE, A1_LE, 0) && DiffersOnlyAt(W2_LE, A2_LE, 0);
    ReplacedOnlyRewrites(s, W1_BE, A1_BE, 1);
    ReplacedOnlyRewrites(p1.data, W2_BE, A2_BE, 1);
    ReplacedOnlyRewrites(p2.data, W1_LE, A1_LE, 0);
    ReplacedOnlyRewrites(p3.data, W2_LE, A2_LE, 0);
    OnlyRewritesTrans(s, p1.data, p2.data, 0x57, 0x41);
    OnlyRewritesTrans(s, p2.data, p3.data, 0x57, 0x41);
    OnlyRewritesTrans(s, p3.data, Patched1045(s).data, 0x57, 0x41);
  }

  /** patch1045_W1W2_to_A1A2(data + off, size). */
  method Patch1045(data: array<Byte>, off: nat, size: nat) returns (changed: bool)
    requires off + size <= data.Length
    modifies data
    ensures data[..off] == old(data[..off]) && data[off + size..] == old(data[off + size..])
    ensures data[off .. off + size] == Patched1045(old(data[off .. off + size])).data
    ensures changed == Patched1045(old(data[off .. off + size])).changed
  {
    changed := false;
    var c := ReplaceBytes(data, off, size, W1_BE, A1_BE);
    changed := changed || c;
    c := ReplaceBytes(data, off, size, W2_BE, A2_BE);
    changed := changed || c;
    c := ReplaceBytes(data, off, size, W1_LE, A1_LE);
    changed := changed || c;
    c := ReplaceBytes(data, off, size, W2_LE, A2_LE);
    changed := changed || c;
  }

  // ---------------------------------------------------------------------------
  // patch1006_W1W2_to_A1A2: the Pascal-string name list of resource 1006
  // ---------------------------------------------------------------------------

  /** The walk of patch1006 over the name list from `pos`, on the bytes as it
      rewrites them: a length byte, that many content bytes, and one pad byte
      when the length is odd; entries 1 and 2 of length 2 get the content "A1"
      and "A2".  The walk stops at the end of the data, at an entry whose
      content would run past it, or at a missing pad byte (after that entry's
      rewrite).  The source's re-check `pos + 1 > size` right after
      `pos < size` can never fire and has no counterpart here. */
  function Walk1006(s: seq<Byte>, pos: nat, idx: nat, changed: bool): (r: Patch)
    ensures |r.data| == |s|
    decreases |s| - pos
  {
    if pos >= |s| then Patch(s, changed)
    else
      var len := s[pos] as nat;
      var start := pos + 1;
      if start + len > |s| then Patch(s, changed)
      else
        var s1 := if len == 2 && idx == 1 then s[start := 0x41][start + 1 := 0x31] else s;
        var s2 := if len == 2 && idx == 2 then s1[start := 0x41][start + 1 := 0x32] else s1;
        var c := changed || (len == 2 && (idx == 1 || idx == 2));
        var next := start + len;
        if len % 2 == 1 && next + 1 > |s| then Patch(s2, c)
        else Walk1006(s2, if len % 2 == 1 then next + 1 else next, idx + 1, c)
  }

  /** Offsets of the length bytes of the name-list entries from `pos` whose
      content lies inside s, read from the unmodified bytes: the entries that
      patch1006 reaches.  Each lies inside s, and each entry's content ends
      before the next entry starts. */
  function Entries1006(s: seq<Byte>, pos: nat): (e: seq<nat>)
    ensures forall k :: 0 <= k < |e| ==> pos <= e[k] < |s| && e[k] + 1 + s[e[k]] <= |s|
    ensures forall k, m :: 0 <= k < m < |e| ==> e[k] + 1 + s[e[k]] <= e[m]
    decreases |s| - pos
  {
    if pos >= |s| || pos + 1 + s[pos] > |s| then []
    else
      var next := pos + 1 + s[pos];
      if s[pos] % 2 == 1 && next + 1 > |s| then [pos]
      else [pos] + Entries1006(s, if s[pos] % 2 == 1 then next + 1 else next)
  }

  /** The 1006 patch in closed form, for a walk that starts at `pos` with entry
      index `idx`: of the entries it reaches, the ones with index 1 and 2 whose
      length byte is 2 get the content "A1" and "A2", nothing else changes, and
      a change is reported exactly when there is such an entry. */
  function Renamed1006(s: seq<Byte>, pos: nat, idx: nat, changed: bool): Patch
  {
    var e := Entries1006(s, pos);
    var hit1 := idx <= 1 && 1 - idx < |e| && s[e[1 - idx]] == 2;
    var hit2 := idx <= 2 && 2 - idx < |e| && s[e[2 - idx]] == 2;
    var s1 := if hit1 then s[e[1 - idx] + 1 := 0x41][e[1 - idx] + 2 := 0x31] else s;
    var s2 := if hit2 then s1[e[2 - idx] + 1 := 0x41][e[2 - idx] + 2 := 0x32] else s1;
    Patch(s2, changed || hit1 || hit2)
  }

  /** An entry whose content and pad byte fit is followed by the entries
      from where the walk goes next. */
  lemma EntriesStep(s: seq<Byte>, pos: nat)
    requires pos < |s| && NextEntry(s, pos) <= |s|
    ensures Entries1006(s, pos) == [pos] + Entries1006(s, NextEntry(s, pos))
  {
  }

  /** The entry list depends only on the bytes from `pos` on. */
  lemma {:induction false} EntriesFrame(s: seq<Byte>, t: seq<Byte>, pos: nat)
    requires |s| == |t| && forall k :: pos <= k < |s| ==> s[k] == t[k]
    ensures Entries1006(s, pos) == Entries1006(t, pos)
    decreases |s| - pos
  {
    if pos < |s| && NextEntry(s, pos) <= |s| {
      assert s[pos] == t[pos];
      EntriesStep(s, pos);
      EntriesStep(t, pos);
      EntriesFrame(s, t, NextEntry(s, pos));
    } else if pos < |s| {
      assert s[pos] == t[pos];
    }
  }

  /** What one entry of the walk does to the bytes: the content of entry 1 or
      2 of length 2 becomes "A1" or "A2". */
  function EntryRewrite(s: seq<Byte>, pos: nat, idx: nat): seq<Byte>
    requires pos < |s| && pos + 1 + s[pos] <= |s|
  {
    var s1 := if s[pos] == 2 && idx == 1 then s[pos + 1 := 0x41][pos + 2 := 0x31] else s;
    if s[pos] == 2 && idx == 2 then s1[pos + 1 := 0x41][pos + 2 := 0x32] else s1
  }

  /** Where the walk goes after the entry at pos (content, then the pad byte of
      an odd length). */
  function NextEntry(s: seq<Byte>, pos: nat): nat
    requires pos < |s|
  {
    if s[pos] % 2 == 1 then pos + 2 + s[pos] else pos + 1 + s[pos]
  }

  /** One entry of the closed form: handling the entry at pos and continuing
      with the next entry on the rewritten bytes is the closed form at pos. */
  lemma RenamedStep(s: seq<Byte>, pos: nat, idx: nat, c: bool)
    requires pos < |s| && NextEntry(s, pos) <= |s|
    ensures Renamed1006(EntryRewrite(s, pos, idx), NextEntry(s, pos), idx + 1,
                        c || (s[pos] == 2 && (idx == 1 || idx == 2)))
         == Renamed1006(s, pos, idx, c)
  {
    var s2 := EntryRewrite(s, pos, idx);
    var np := NextEntry(s, pos);
    EntriesFrame(s, s2, np);
    EntriesStep(s, pos);
    if idx == 0 {
      RenamedStepFirst(s, pos, c);
    } else if idx == 1 {
      RenamedStepSecond(s, pos, c);
    } else if idx == 2 {
      RenamedStepThird(s, pos, c);
    }
  }

  lemma RenamedStepFirst(s: seq<Byte>, pos: nat, c: bool)
    requires pos < |s| && NextEntry(s, pos) <= |s|
    requires Entries1006(s, pos) == [pos] + Entries1006(s, NextEntry(s, pos))
    ensures Renamed1006(s, NextEntry(s, pos), 1, c) == Renamed1006(s, pos, 0, c)
  {
    var e := Entries1006(s, pos);
    var rest := Entries1006(s, NextEntry(s, pos));
    if |rest| > 0 {
      assert e[1] == rest[0];
    }
    if |rest| > 1 {
      assert e[2] == rest[1];
    }
  }

  lemma RenamedStepSecond(s: seq<Byte>, pos: nat, c: bool)
    requires pos < |s| && NextEntry(s, pos) <= |s|
    requires Entries1006(s, pos) == [pos] + Entries1006(s, NextEntry(s, pos))
    requires Entries1006(EntryRewrite(s, pos, 1), NextEntry(s, pos)) == Entries1006(s, NextEntry(s, pos))
    ensures Renamed1006(EntryRewrite(s, pos, 1), NextEntry(s, pos), 2, c || s[pos] == 2)
         == Renamed1006(s, pos, 1, c)
  {
    var s2 := EntryRewrite(s, pos, 1);
    var rest := Entries1006(s, NextEntry(s, pos));
    var hit2 := 0 < |rest| && s[rest[0]] == 2;
    if |rest| > 0 {
      assert s2[rest[0]] == s[rest[0]];
    }
    RenamedFromTwo(s2, NextEntry(s, pos), c || s[pos] == 2, rest);
    SecondFromEntries(s, pos, c);
  }

  /** The closed form from entry index 2, given the entry list e: only the
      first entry reached can be renamed. */
  lemma RenamedFromTwo(t: seq<Byte>, q: nat, c: bool, e: seq<nat>)
    requires e == Entries1006(t, q)
    ensures 0 < |e| ==> e[0] + 1 + t[e[0]] <= |t|
    ensures var hit := 0 < |e| && t[e[0]] == 2;
            Renamed1006(t, q, 2, c) == Patch(if hit then t[e[0] + 1 := 0x41][e[0] + 2 := 0x32] else t, c || hit)
  {
  }

  /** The closed form from entry index 1, read off the entry list. */
  lemma SecondFromEntries(s: seq<Byte>, pos: nat, c: bool)
    requires pos < |s| && NextEntry(s, pos) <= |s|
    requires Entries1006(s, pos) == [pos] + Entries1006(s, NextEntry(s, pos))
    ensures var rest := Entries1006(s, NextEntry(s, pos));
            var s2 := EntryRewrite(s, pos, 1);
            var hit2 := 0 < |rest| && s[rest[0]] == 2;
            Renamed1006(s, pos, 1, c)
              == Patch(if hit2 then s2[rest[0] + 1 := 0x41][rest[0] + 2 := 0x32] else s2,
                       c || s[pos] == 2 || hit2)
  {
    var e := Entries1006(s, pos);
    var rest := Entries1006(s, NextEntry(s, pos));
    var s2 := EntryRewrite(s, pos, 1);
    assert e[0] == pos;
    var hit1 := 0 < |e| && s[e[0]] == 2;
    var s1 := if hit1 then s[e[0] + 1 := 0x41][e[0] + 2 := 0x31] else s;
    assert s1 == s2;
    if |rest| > 0 {
      assert e[1] == rest[0];
    }
  }

  lemma RenamedStepThird(s: seq<Byte>, pos: nat, c: bool)
    requires pos < |s| && NextEntry(s, pos) <= |s|
    requires Entries1006(s, pos) == [pos] + Entries1006(s, NextEntry(s, pos))
    ensures Renamed1006(EntryRewrite(s, pos, 2), NextEntry(s, pos), 3, c || s[pos] == 2)
         == Renamed1006(s, pos, 2, c)
  {
  }

  /** One entry of the walk: an entry whose content and pad byte fit is
      rewritten, and the walk goes on at the next entry. */
  lemma Walk1006Step(s: seq<Byte>, pos: nat, idx: nat, c: bool)
    requires pos < |s| && NextEntry(s, pos) <= |s|
    ensures Walk1006(s, pos, idx, c)
         == Walk1006(EntryRewrite(s, pos, idx), NextEntry(s, pos), idx + 1, c || (s[pos] == 2 && (idx == 1 || idx == 2)))
  {
  }

  /** An odd-length entry whose pad byte is missing is the last one: the
      walk rewrites it and stops, as the closed form says. */
  lemma LastEntryRenamed(s: seq<Byte>, pos: nat, idx: nat, c: bool)
    requires pos < |s| && pos + 1 + s[pos] <= |s| && s[pos] % 2 == 1 && pos + 2 + s[pos] > |s|
    ensures Walk1006(s, pos, idx, c) == Renamed1006(s, pos, idx, c)
  {
    assert Entries1006(s, pos) == [pos];
  }

  /** The walk over the bytes as it rewrites them is the closed form over the
      original bytes: a rewrite touches only content bytes the walk has already
      passed, so every later length byte is read unmodified. */
  lemma {:induction false} WalkIsRenamed(s: seq<Byte>, pos: nat, idx: nat, c: bool)
    ensures Walk1006(s, pos, idx, c) == Renamed1006(s, pos, idx, c)
    decreases |s| - pos
  {
    if pos >= |s| || pos + 1 + s[pos] > |s| {
    } else if s[pos] % 2 == 1 && pos + 2 + s[pos] > |s| {
      LastEntryRenamed(s, pos, idx, c);
    } else {
      var c' := c || (s[pos] == 2 && (idx == 1 || idx == 2));
      Walk1006Step(s, pos, idx, c);
      WalkIsRenamed(EntryRewrite(s, pos, idx), NextEntry(s, pos), idx + 1, c');
      RenamedStep(s, pos, idx, c);
    }
  }

  /** patch1006 as a whole: the walk from the start of the data is the closed
      form.  It changes only the two content bytes of the entries with index 1
      and 2 whose length is 2, and it reports a change exactly when such an
      entry was reached, whatever those bytes held before. */
  lemma Walk1006FromStart(s: seq<Byte>)
    ensures Walk1006(s, 0, 0, false) == Renamed1006(s, 0, 0, false)
  {
    WalkIsRenamed(s, 0, 0, false);
  }

  /** patch1006_W1W2_to_A1A2(data + off, size). */
  method Patch1006(data: array<Byte>, off: nat, size: nat) returns (changed: bool)
    requires off + size <= data.Length
    modifies data
    ensures data[..off] == old(data[..off]) && data[off + size..] == old(data[off + size..])
    ensures data[off .. off + size] == Walk1006(old(data[off .. off + size]), 0, 0, false).data
    ensures changed == Walk1006(old(data[off .. off + size]), 0, 0, false).changed
  {
    ghost var region0 := data[off .. off + size];
    var pos := 0;
    var idx := 0;
    changed := false;
    while pos < size
      invariant pos <= size
      invariant data[..off] == old(data[..off]) && data[off + size..] == old(data[off + size..])
      invariant Walk1006(data[off .. off + size], pos, idx, changed) == Walk1006(region0, 0, 0, false)
      decreases size - pos
    {
      ghost var region := data[off .. off + size];
      var entry := pos;
      ghost var c0 := changed;
      if pos + 1 > size {
        break;
      }
      var len := data[off + pos] as nat;
      assert len == region[entry];
      pos := pos + 1;
      if pos + len > size {
        break;
      }
      var hit := RewriteEntry(data, off, size, entry, idx);
      ghost var rewritten := data[off .. off + size];
      assert rewritten == EntryRewrite(region, entry, idx);
      changed := changed || hit;
      pos := pos + len;
      if len % 2 != 0 {
        if pos + 1 > size {
          break;
        }
        pos := pos + 1;
      }
      assert pos == NextEntry(region, entry);
      assert changed == (c0 || (region[entry] == 2 && (idx == 1 || idx == 2)));
      Walk1006Step(region, entry, idx, c0);
      assert Walk1006(rewritten, pos, idx + 1, changed) == Walk1006(region, entry, idx, c0);
      idx := idx + 1;
    }
  }

  /** The two writes of one entry of patch1006: entry 1 or 2 of length 2 at
      window offset entry gets the content "A1" or "A2"; hit says whether it
      did. */
  method RewriteEntry(data: array<Byte>, off: nat, size: nat, entry: nat, idx: nat) returns (hit: bool)
    requires off + size <= data.Length && entry < size && entry + 1 + data[off + entry] <= size
    modifies data
    ensures data[..off] == old(data[..off]) && data[off + size..] == old(data[off + size..])
    ensures data[off .. off + size] == EntryRewrite(old(data[off .. off + size]), entry, idx)
    ensures hit == (old(data[off + entry]) == 2 && (idx == 1 || idx == 2))
  {
    ghost var before := data[..];
    var len := data[off + entry];
    var p := entry + 1;
    hit := false;
    if len == 2 && idx == 1 {
      data[off + p] := 0x41;
      data[off + p + 1] := 0x31;
      hit := true;
      SliceWrite2(before, data[..], off, size, p, 0x41, 0x31);
    }
    if len == 2 && idx == 2 {
      data[off + p] := 0x41;
      data[off + p + 1] := 0x32;
      hit := true;
      SliceWrite2(before, data[..], off, size, p, 0x41, 0x32);
    }
  }

  /** Two bytes written at j and j + 1 inside the window [off, off + size) of
      a: the window reads as updated there and nothing outside it changes. */
  lemma SliceWrite2(a: seq<Byte>, b: seq<Byte>, off: nat, size: nat, j: nat, x: Byte, y: Byte)
    requires off + size <= |a| && j + 1 < size
    requires b == a[off + j := x][off + j + 1 := y]
    ensures b[off .. off + size] == a[off .. off + size][j := x][j + 1 := y]
    ensures b[..off] == a[..off] && b[off + size..] == a[off + size..]
  {
  }

  // ---------------------------------------------------------------------------
  // patchPs34377_renameW1W2: the walk over the resource blocks of the blob
  // ---------------------------------------------------------------------------

  /** The resource-block signature "8BIM". */
  const SIGNATURE: seq<Byte> := [0x38, 0x42, 0x49, 0x4D]

  const RESOURCE_ALPHA_NAMES: U16 := 1006
  const RESOURCE_UNICODE_ALPHA_NAMES: U16 := 1045

  /** One resource block: where it starts, its id, where its data lies and
      where the next block starts (after the data's pad byte). */
  datatype Record = Record(start: nat, id: U16, dataOff: nat, dataSize: U32, next: nat)

  /** The checks the walk makes on the block at pos, in the source's order:
      signature, id, name length, name, name pad, data size, data, data pad.
      Any failed check ends the walk (None).  A parsed block is at least 12
      bytes long (the name field, padded so that 1 + length is even, takes at
      least two bytes), its data lies inside it, and it lies inside s. */
  function ParseRecord(s: seq<Byte>, pos: nat): (o: Option<Record>)
    ensures o.Some? ==> o.value.start == pos && pos + 12 <= o.value.dataOff
    ensures o.Some? ==> o.value.dataOff + o.value.dataSize <= o.value.next <= |s|
    ensures o.Some? ==> o.value.next <= o.value.dataOff + o.value.dataSize + 1
  {
    if pos + 4 > |s| || s[pos .. pos + 4] != SIGNATURE then None
    else if pos + 6 > |s| then None
    else
      var id := ReadBE16(s, pos + 4);
      if pos + 7 > |s| then None
      else
        var nameLen := s[pos + 6] as nat;
        var afterName := pos + 7 + nameLen;
        if afterName > |s| then None
        else
          var nameEnd := if (1 + nameLen) % 2 != 0 then afterName + 1 else afterName;
          if nameEnd > |s| || nameEnd + 4 > |s| then None
          else
            var dataSize := ReadBE32(s, nameEnd);
            var dataOff := nameEnd + 4;
            if dataOff + dataSize > |s| then None
            else
              var next := if dataSize % 2 != 0 then dataOff + dataSize + 1 else dataOff + dataSize;
              if next > |s| then None
              else Some(Record(pos, id, dataOff, dataSize, next))
  }

  /** The pad byte that makes a field of n bytes even. */
  function Pad(n: nat): (p: seq<Byte>)
    ensures |p| == n % 2
  {
    if n % 2 != 0 then [0] else []
  }

  /** The bytes a writer stores before a block's data size: signature, id,
      name length, name and the name's pad byte. */
  function RecordHeader(id: U16, name: seq<Byte>): (h: seq<Byte>)
    requires |name| < 0x100
    ensures |h| == 7 + |name| + (1 + |name|) % 2
  {
    SIGNATURE + EncodeBE16(id) + [|name|] + name + Pad(1 + |name|)
  }

  /** The bytes a writer stores for a block with this id, name and data. */
  function EncodeRecord(id: U16, name: seq<Byte>, data: seq<Byte>): (s: seq<Byte>)
    requires |name| < 0x100 && |data| < 0x1_0000_0000
    ensures 12 <= |s|
  {
    RecordHeader(id, name) + EncodeBE32(|data|) + data + Pad(|data|)
  }

  /** The data bytes of a parsed block. */
  function Region(s: seq<Byte>, r: Record): seq<Byte>
    requires r.dataOff + r.dataSize <= |s|
  {
    s[r.dataOff .. r.dataOff + r.dataSize]
  }

  /** Parsing an encoded block, whatever follows it, gives back its id and
      exactly its data, and the next block starts right after it. */
  lemma ParseEncodedRecord(id: U16, name: seq<Byte>, data: seq<Byte>, rest: seq<Byte>)
    requires |name| < 0x100 && |data| < 0x1_0000_0000
    ensures var s := EncodeRecord(id, name, data) + rest;
            var o := ParseRecord(s, 0);
            o.Some? && o.value.id == id && Region(s, o.value) == data &&
            o.value.next == |EncodeRecord(id, name, data)|
  {
    var h := RecordHeader(id, name);
    HeaderFields(id, name, EncodeBE32(|data|), data, Pad(|data|), rest);
    BodyFields(h, |data|, data, Pad(|data|), rest);
    ParseRecordOf(EncodeRecord(id, name, data) + rest, 0, id, |name|, |data|);
  }

  /** The header of an encoded block reads back as its signature, id and
      name length, whatever follows it. */
  lemma HeaderFields(id: U16, name: seq<Byte>, b: seq<Byte>, c: seq<Byte>, d: seq<Byte>, e: seq<Byte>)
    requires |name| < 0x100
    ensures var s := RecordHeader(id, name) + b + c + d + e;
            7 <= |s| && s[0 .. 4] == SIGNATURE && ReadBE16(s, 4) == id && s[6] == |name|
  {
    var s := RecordHeader(id, name) + b + c + d + e;
    var h := SIGNATURE + EncodeBE16(id) + [|name|];
    assert s[0 .. 7] == h;
    assert s[4 .. 6] == EncodeBE16(id);
    ReadSliceBE16(s, 4, EncodeBE16(id));
    ReadEncodeBE16(id);
  }

  /** The size field and the data of an encoded block read back after its
      header h, whatever follows them. */
  lemma BodyFields(h: seq<Byte>, n: U32, data: seq<Byte>, d: seq<Byte>, e: seq<Byte>)
    requires |data| == n
    ensures var s := h + EncodeBE32(n) + data + d + e;
            |h| + 4 + n + |d| <= |s| && ReadBE32(s, |h|) == n && s[|h| + 4 .. |h| + 4 + n] == data
  {
    var s := h + EncodeBE32(n) + data + d + e;
    assert s[|h| .. |h| + 4] == EncodeBE32(n);
    ReadSliceBE32(s, |h|, EncodeBE32(n));
    ReadEncodeBE32(n);
  }

  /** The parse of a block whose fields read as given: it succeeds with that
      id and data size, with the data after the padded name and size field. */
  lemma ParseRecordOf(s: seq<Byte>, pos: nat, id: U16, nameLen: nat, dataSize: U32)
    requires pos + 7 <= |s| && s[pos .. pos + 4] == SIGNATURE && ReadBE16(s, pos + 4) == id && s[pos + 6] == nameLen
    requires var nameEnd := pos + 7 + nameLen + (if (1 + nameLen) % 2 != 0 then 1 else 0);
             nameEnd + 4 <= |s| && ReadBE32(s, nameEnd) == dataSize &&
             nameEnd + 4 + dataSize + (if dataSize % 2 != 0 then 1 else 0) <= |s|
    ensures var nameEnd := pos + 7 + nameLen + (if (1 + nameLen) % 2 != 0 then 1 else 0);
            ParseRecord(s, pos) ==
              Some(Record(pos, id, nameEnd + 4, dataSize, nameEnd + 4 + dataSize + (if dataSize % 2 != 0 then 1 else 0)))
  {
  }

  /** `region` written over s at offset off. */
  function Splice(s: seq<Byte>, off: nat, region: seq<Byte>): (t: seq<Byte>)
    requires off + |region| <= |s|
    ensures |t| == |s|
  {
    s[..off] + region + s[off + |region|..]
  }

  /** What the walk does to the data of a block with this id: the 1045 patch,
      the 1006 patch, or nothing. */
  function RecordPatch(region: seq<Byte>, id: U16): (p: Patch)
    ensures |p.data| == |region|
    ensures id != RESOURCE_ALPHA_NAMES && id != RESOURCE_UNICODE_ALPHA_NAMES ==> p == Patch(region, false)
  {
    if id == RESOURCE_UNICODE_ALPHA_NAMES then Patched1045(region)
    else if id == RESOURCE_ALPHA_NAMES then Walk1006(region, 0, 0, false)
    else Patch(region, false)
  }

  /** The walk's bytes and its two flags. */
  datatype BlobWalk = BlobWalk(data: seq<Byte>, patched1006: bool, patched1045: bool)

  /** The loop of patchPs34377 from pos, on the bytes as it rewrites them: while
      four bytes remain, parse a block, patch its data when its id is 1045 or
      1006 and overwrite (not or) that id's flag with the patch's result.  The
      source's `pos <= blockStart` stop can never fire (a block is at least 12
      bytes) and has no counterpart here. */
  function WalkBlob(s: seq<Byte>, pos: nat, p1006: bool, p1045: bool): (w: BlobWalk)
    ensures |w.data| == |s|
    decreases |s| - pos
  {
    if pos + 4 > |s| then BlobWalk(s, p1006, p1045)
    else match ParseRecord(s, pos)
      case None => BlobWalk(s, p1006, p1045)
      case Some(r) =>
        var p := RecordPatch(Region(s, r), r.id);
        WalkBlob(Splice(s, r.dataOff, p.data), r.next,
                 if r.id == RESOURCE_ALPHA_NAMES then p.changed else p1006,
                 if r.id == RESOURCE_UNICODE_ALPHA_NAMES then p.changed else p1045)
  }

  /** patchPs34377_renameW1W2 on a blob: an empty blob is left alone; otherwise
      the blob after the walk, reported as changed only when both flags are set. */
  function PatchedBlob(s: seq<Byte>): (r: Patch)
    ensures |r.data| == |s|
  {
    if |s| == 0 then Patch(s, false)
    else
      var w := WalkBlob(s, 0, false, false);
      Patch(w.data, w.patched1045 && w.patched1006)
  }

  // Independent description: the list of blocks in the original blob, and for
  // each id the last block that carries it.

  /** The blocks the walk parses from pos, read from the unmodified bytes: they
      follow each other without gaps, in order, inside s. */
  function Records(s: seq<Byte>, pos: nat): (rs: seq<Record>)
    ensures forall k :: 0 <= k < |rs| ==> pos <= rs[k].start && rs[k].next <= |s|
    ensures forall k :: 0 <= k < |rs| ==> rs[k].start + 12 <= rs[k].dataOff && rs[k].dataOff + rs[k].dataSize <= rs[k].next
    ensures 0 < |rs| ==> rs[0].start == pos
    ensures forall k :: 0 <= k < |rs| - 1 ==> rs[k].next == rs[k + 1].start
    decreases |s| - pos
  {
    if pos + 4 > |s| then []
    else match ParseRecord(s, pos)
      case None => []
      case Some(r) => [r] + Records(s, r.next)
  }

  /** The index of the last record with this id, or -1 when there is none. */
  function LastWithId(rs: seq<Record>, id: U16): (k: int)
    ensures -1 <= k < |rs|
    ensures k >= 0 ==> rs[k].id == id && forall j :: k < j < |rs| ==> rs[j].id != id
    ensures k == -1 ==> forall j :: 0 <= j < |rs| ==> rs[j].id != id
  {
    if |rs| == 0 then -1
    else if rs[|rs| - 1].id == id then |rs| - 1
    else LastWithId(rs[..|rs| - 1], id)
  }

  /** The flag a walk from the given initial value ends with for this id: the
      result of patching the original data of the LAST block with that id, or
      the initial value when there is no such block. */
  function FinalFlag(s: seq<Byte>, rs: seq<Record>, id: U16, initial: bool): bool
    requires forall k :: 0 <= k < |rs| ==> rs[k].dataOff + rs[k].dataSize <= |s|
  {
    var k := LastWithId(rs, id);
    if k >= 0 then RecordPatch(Region(s, rs[k]), id).changed else initial
  }

  /** s and t have the same length and agree from q on. */
  ghost predicate AgreeFrom(s: seq<Byte>, t: seq<Byte>, q: nat)
  {
    |s| == |t| && forall k :: q <= k < |s| ==> s[k] == t[k]
  }

  /** A block's parse reads only bytes from its start on. */
  lemma ParseRecordFrame(s: seq<Byte>, t: seq<Byte>, pos: nat)
    requires AgreeFrom(s, t, pos)
    ensures ParseRecord(s, pos) == ParseRecord(t, pos)
  {
    if pos + 4 <= |s| {
      assert s[pos .. pos + 4] == t[pos .. pos + 4];
    }
  }

  /** The block list from pos reads only bytes from pos on. */
  lemma {:induction false} RecordsFrame(s: seq<Byte>, t: seq<Byte>, pos: nat)
    requires AgreeFrom(s, t, pos)
    ensures Records(s, pos) == Records(t, pos)
    decreases |s| - pos
  {
    ParseRecordFrame(s, t, pos);
    if pos + 4 <= |s| && ParseRecord(s, pos).Some? {
      RecordsFrame(s, t, ParseRecord(s, pos).value.next);
    }
  }

  /** The last record with an id in [r] + rest: the last one in rest if any,
      otherwise r itself when it carries the id. */
  lemma LastWithIdCons(r: Record, rest: seq<Record>, id: U16)
    ensures LastWithId([r] + rest, id) ==
      if LastWithId(rest, id) >= 0 then 1 + LastWithId(rest, id)
      else if r.id == id then 0 else -1
  {
    var rs := [r] + rest;
    var k := LastWithId(rs, id);
    var m := LastWithId(rest, id);
    if m >= 0 {
      assert rs[1 + m].id == id;
      assert k == 1 + m;
    } else if r.id == id {
      assert rs[0].id == id;
      assert forall j :: 0 < j < |rs| ==> rs[j] == rest[j - 1];
    } else {
      assert forall j :: 0 < j < |rs| ==> rs[j] == rest[j - 1];
    }
  }

  /** Blocks that start at or after q have the same data in bytes that agree
      from q on. */
  lemma RegionsAgree(s: seq<Byte>, t: seq<Byte>, q: nat, rs: seq<Record>)
    requires AgreeFrom(s, t, q)
    requires forall k :: 0 <= k < |rs| ==> q <= rs[k].dataOff && rs[k].dataOff + rs[k].dataSize <= |s|
    ensures forall k :: 0 <= k < |rs| ==> Region(t, rs[k]) == Region(s, rs[k])
  {
    forall k | 0 <= k < |rs| ensures Region(t, rs[k]) == Region(s, rs[k]) {
      var x, y := Region(t, rs[k]), Region(s, rs[k]);
      assert forall i :: 0 <= i < |x| ==> x[i] == t[rs[k].dataOff + i] == s[rs[k].dataOff + i] == y[i];
    }
  }

  /** One block of FinalFlag: the flag over [r] + rest equals the flag over
      rest (read from bytes t whose block data agree with s) started from the
      value r leaves behind. */
  lemma FinalFlagCons(s: seq<Byte>, t: seq<Byte>, r: Record, rest: seq<Record>, id: U16, initial: bool)
    requires r.dataOff + r.dataSize <= |s|
    requires forall k :: 0 <= k < |rest| ==> rest[k].dataOff + rest[k].dataSize <= |s| <= |t|
    requires forall k :: 0 <= k < |rest| ==> Region(t, rest[k]) == Region(s, rest[k])
    ensures FinalFlag(t, rest, id, if r.id == id then RecordPatch(Region(s, r), id).changed else initial)
         == FinalFlag(s, [r] + rest, id, initial)
  {
    LastWithIdCons(r, rest, id);
    var m := LastWithId(rest, id);
    if m >= 0 {
      assert ([r] + rest)[1 + m] == rest[m];
    }
  }

  /** One step of the walk at a block r: the walk goes on from r.next over the
      bytes with r's data patched, the block list is r followed by the blocks
      after it, and those blocks read the same from the patched bytes. */
  lemma WalkStep(s: seq<Byte>, pos: nat, a: bool, b: bool, r: Record, s': seq<Byte>, a': bool, b': bool)
    requires pos + 4 <= |s| && ParseRecord(s, pos) == Some(r)
    requires s' == Splice(s, r.dataOff, RecordPatch(Region(s, r), r.id).data)
    requires a' == if r.id == RESOURCE_ALPHA_NAMES then RecordPatch(Region(s, r), r.id).changed else a
    requires b' == if r.id == RESOURCE_UNICODE_ALPHA_NAMES then RecordPatch(Region(s, r), r.id).changed else b
    ensures WalkBlob(s, pos, a, b) == WalkBlob(s', r.next, a', b')
    ensures Records(s, pos) == [r] + Records(s, r.next)
    ensures Records(s', r.next) == Records(s, r.next)
    ensures forall k :: 0 <= k < |Records(s, r.next)| ==> Region(s', Records(s, r.next)[k]) == Region(s, Records(s, r.next)[k])
  {
    SpliceFacts(s, r.dataOff, RecordPatch(Region(s, r), r.id).data);
    assert AgreeFrom(s, s', r.next);
    RecordsFrame(s, s', r.next);
    RegionsAgree(s, s', r.next, Records(s, r.next));
  }

  /** The flags of the walk from pos: for each of 1045 and 1006, the result of
      patching the original data of the last block with that id, or the
      initial flag when no parsed block has it.  A block with that id whose
      patch changed something is forgotten when a later one changes nothing. */
  lemma {:induction false} WalkBlobFlags(s: seq<Byte>, pos: nat, a: bool, b: bool)
    ensures WalkBlob(s, pos, a, b).patched1006 == FinalFlag(s, Records(s, pos), RESOURCE_ALPHA_NAMES, a)
    ensures WalkBlob(s, pos, a, b).patched1045 == FinalFlag(s, Records(s, pos), RESOURCE_UNICODE_ALPHA_NAMES, b)
    decreases |s| - pos
  {
    if pos + 4 <= |s| && ParseRecord(s, pos).Some? {
      var r := ParseRecord(s, pos).value;
      var p := RecordPatch(Region(s, r), r.id);
      var s' := Splice(s, r.dataOff, p.data);
      var a' := if r.id == RESOURCE_ALPHA_NAMES then p.changed else a;
      var b' := if r.id == RESOURCE_UNICODE_ALPHA_NAMES then p.changed else b;
      WalkStep(s, pos, a, b, r, s', a', b');
      var rest := Records(s, r.next);
      WalkBlobFlags(s', r.next, a', b');
      FinalFlagCons(s, s', r, rest, RESOURCE_ALPHA_NAMES, a);
      FinalFlagCons(s, s', r, rest, RESOURCE_UNICODE_ALPHA_NAMES, b);
    }
  }

  /** patchPs34377_renameW1W2 reports a change exactly when the blob is not
      empty and the last 1045 block's patch and the last 1006 block's patch,
      each on its block's original data, both changed something; there is no
      change when either block is missing. */
  lemma PatchedBlobChanged(s: seq<Byte>)
    ensures PatchedBlob(s).changed <==>
      |s| > 0 &&
      FinalFlag(s, Records(s, 0), RESOURCE_UNICODE_ALPHA_NAMES, false) &&
      FinalFlag(s, Records(s, 0), RESOURCE_ALPHA_NAMES, false)
  {
    WalkBlobFlags(s, 0, false, false);
  }

  /** Byte j lies in the data of one of the blocks. */
  ghost predicate InSomeRegion(rs: seq<Record>, j: nat)
  {
    exists k :: 0 <= k < |rs| && rs[k].dataOff <= j < rs[k].dataOff + rs[k].dataSize
  }

  lemma SliceAgree(x: seq<Byte>, y: seq<Byte>, lo: nat, hi: nat)
    requires lo <= hi <= |x| == |y|
    requires forall j :: lo <= j < hi ==> x[j] == y[j]
    ensures x[lo .. hi] == y[lo .. hi]
  {
    assert forall i :: 0 <= i < hi - lo ==> x[lo .. hi][i] == x[lo + i];
  }

  /** Splicing puts the region at off and keeps every other byte. */
  lemma SpliceFacts(s: seq<Byte>, off: nat, region: seq<Byte>)
    requires off + |region| <= |s|
    ensures Splice(s, off, region)[off .. off + |region|] == region
    ensures forall j :: 0 <= j < |s| && !(off <= j < off + |region|) ==> Splice(s, off, region)[j] == s[j]
  {
  }

  /** One block of WalkBlobData, for the data of the blocks: what holds of the
      walk's bytes w over the blocks after r, with r's data already spliced in,
      holds over [r] + rest. */
  lemma DataStep(s: seq<Byte>, w: seq<Byte>, r: Record, rest: seq<Record>)
    requires r.dataOff + r.dataSize <= r.next <= |s| == |w|
    requires forall k :: 0 <= k < |rest| ==> r.next <= rest[k].dataOff && rest[k].dataOff + rest[k].dataSize <= |s|
    requires forall k :: 0 <= k < |rest| ==> Region(w, rest[k]) == RecordPatch(Region(s, rest[k]), rest[k].id).data
    requires forall j :: 0 <= j < |s| && !InSomeRegion(rest, j) ==>
               w[j] == Splice(s, r.dataOff, RecordPatch(Region(s, r), r.id).data)[j]
    ensures forall k :: 0 <= k < |[r] + rest| ==>
              Region(w, ([r] + rest)[k]) == RecordPatch(Region(s, ([r] + rest)[k]), ([r] + rest)[k].id).data
  {
    DataStepHead(s, w, r, rest);
    var rs := [r] + rest;
    forall k | 0 <= k < |rs| ensures Region(w, rs[k]) == RecordPatch(Region(s, rs[k]), rs[k].id).data {
      if k > 0 {
        assert rs[k] == rest[k - 1];
      }
    }
  }

  /** The head of DataStep: r's own data in w is its patch. */
  lemma DataStepHead(s: seq<Byte>, w: seq<Byte>, r: Record, rest: seq<Record>)
    requires r.dataOff + r.dataSize <= r.next <= |s| == |w|
    requires forall k :: 0 <= k < |rest| ==> r.next <= rest[k].dataOff
    requires forall j :: 0 <= j < |s| && !InSomeRegion(rest, j) ==>
               w[j] == Splice(s, r.dataOff, RecordPatch(Region(s, r), r.id).data)[j]
    ensures Region(w, r) == RecordPatch(Region(s, r), r.id).data
  {
    var p := RecordPatch(Region(s, r), r.id);
    var s' := Splice(s, r.dataOff, p.data);
    SpliceFacts(s, r.dataOff, p.data);
    forall j | r.dataOff <= j < r.dataOff + r.dataSize ensures w[j] == s'[j] {
      assert !InSomeRegion(rest, j);
    }
    SliceAgree(w, s', r.dataOff, r.dataOff + r.dataSize);
  }

  /** One block of WalkBlobData, for the bytes outside every block's data. */
  lemma OutsideStep(s: seq<Byte>, w: seq<Byte>, r: Record, rest: seq<Record>)
    requires r.dataOff + r.dataSize <= |s| == |w|
    requires forall j :: 0 <= j < |s| && !InSomeRegion(rest, j) ==>
               w[j] == Splice(s, r.dataOff, RecordPatch(Region(s, r), r.id).data)[j]
    ensures forall j :: 0 <= j < |s| && !InSomeRegion([r] + rest, j) ==> w[j] == s[j]
  {
    var p := RecordPatch(Region(s, r), r.id);
    SpliceFacts(s, r.dataOff, p.data);
    var rs := [r] + rest;
    forall j | 0 <= j < |s| && !InSomeRegion(rs, j) ensures w[j] == s[j] {
      assert rs[0] == r;
      assert !InSomeRegion(rest, j) by {
        forall k | 0 <= k < |rest| ensures !(rest[k].dataOff <= j < rest[k].dataOff + rest[k].dataSize) {
          assert rs[k + 1] == rest[k];
        }
      }
    }
  }

  /** The bytes of the walk from pos: the data of every parsed block is its
      patch applied to its ORIGINAL data (each block is patched once, and no
      patch reaches into another block), and every byte outside the parsed
      blocks' data keeps its value. */
  lemma {:induction false} WalkBlobData(s: seq<Byte>, pos: nat, a: bool, b: bool)
    ensures var w := WalkBlob(s, pos, a, b).data;
            var rs := Records(s, pos);
            forall k :: 0 <= k < |rs| ==> Region(w, rs[k]) == RecordPatch(Region(s, rs[k]), rs[k].id).data
    ensures var w := WalkBlob(s, pos, a, b).data;
            forall j :: 0 <= j < |s| && !InSomeRegion(Records(s, pos), j) ==> w[j] == s[j]
    decreases |s| - pos
  {
    if pos + 4 <= |s| && ParseRecord(s, pos).Some? {
      var r := ParseRecord(s, pos).value;
      var p := RecordPatch(Region(s, r), r.id);
      var s' := Splice(s, r.dataOff, p.data);
      var a' := if r.id == RESOURCE_ALPHA_NAMES then p.changed else a;
      var b' := if r.id == RESOURCE_UNICODE_ALPHA_NAMES then p.changed else b;
      WalkStep(s, pos, a, b, r, s', a', b');
      var rest := Records(s, r.next);
      WalkBlobData(s', r.next, a', b');
      DataStep(s, WalkBlob(s', r.next, a', b').data, r, rest);
      OutsideStep(s, WalkBlob(s', r.next, a', b').data, r, rest);
    }
  }

  /** patchPs34377_renameW1W2 on the bytes: the data of each block the walk
      parses is that block's patch (1045, 1006, or none for any other id)
      applied to its original data, and every other byte is unchanged. */
  lemma PatchedBlobData(s: seq<Byte>)
    ensures var rs := Records(s, 0);
            forall k :: 0 <= k < |rs| ==>
              Region(PatchedBlob(s).data, rs[k]) == RecordPatch(Region(s, rs[k]), rs[k].id).data
    ensures forall j :: 0 <= j < |s| && !InSomeRegion(Records(s, 0), j) ==> PatchedBlob(s).data[j] == s[j]
  {
    if |s| > 0 {
      WalkBlobData(s, 0, false, false);
    }
  }

  /** Bytes that keep s outside [off, off + |region|) and hold region inside it
      are the splice. */
  lemma SpliceOfParts(s: seq<Byte>, t: seq<Byte>, off: nat, region: seq<Byte>)
    requires off + |region| <= |s| == |t|
    requires t[..off] == s[..off] && t[off + |region|..] == s[off + |region|..]
    requires t[off .. off + |region|] == region
    ensures t == Splice(s, off, region)
  {
    assert t == t[..off] + t[off .. off + |region|] + t[off + |region|..];
  }

  /** The checks at the head of one turn of the loop in
      patchPs34377_renameW1W2, from the signature to the data's pad byte: ok
      when the block at pos passes them all, with its id, data offset, data
      size and the offset of the next block. */
  method ReadRecord(ps34377: array<Byte>, pos: nat) returns (ok: bool, rid: U16, dataOff: nat, dataSize: U32, next: nat)
    ensures ok <==> ParseRecord(ps34377[..], pos).Some?
    ensures ok ==> ParseRecord(ps34377[..], pos) == Some(Record(pos, rid, dataOff, dataSize, next))
  {
    ghost var s := ps34377[..];
    var len := ps34377.Length;
    rid, dataOff, dataSize, next := 0, 0, 0, 0;
    ok := false;
    var p := pos;
    if p + 4 > len || ps34377[p .. p + 4] != SIGNATURE {
      return;
    }
    p := p + 4;
    if p + 2 > len {
      return;
    }
    rid := ReadBE16(ps34377[..], p);
    p := p + 2;
    if p + 1 > len {
      return;
    }
    var nameLen := ps34377[p] as nat;
    p := p + 1;
    if p + nameLen > len {
      return;
    }
    p := p + nameLen;
    if (1 + nameLen) % 2 != 0 {
      if p + 1 > len {
        return;
      }
      p := p + 1;
    }
    if p + 4 > len {
      return;
    }
    dataSize := ReadBE32(ps34377[..], p);
    p := p + 4;
    if p + dataSize > len {
      return;
    }
    dataOff := p;
    p := p + dataSize;
    if dataSize % 2 != 0 {
      if p + 1 > len {
        return;
      }
      p := p + 1;
    }
    ok, next := true, p;
  }

  /** One turn of the walk over a block that parses. */
  lemma WalkBlobStep(s: seq<Byte>, pos: nat, p1006: bool, p1045: bool)
    requires ParseRecord(s, pos).Some?
    ensures var r := ParseRecord(s, pos).value;
            var p := RecordPatch(Region(s, r), r.id);
            WalkBlob(s, pos, p1006, p1045)
              == WalkBlob(Splice(s, r.dataOff, p.data), r.next,
                          if r.id == RESOURCE_ALPHA_NAMES then p.changed else p1006,
                          if r.id == RESOURCE_UNICODE_ALPHA_NAMES then p.changed else p1045)
  {
  }

  /** The two patch calls of one turn of the loop: the data of a 1045 block
      gets patch1045, that of a 1006 block patch1006, any other is left alone. */
  method PatchBlockData(ps34377: array<Byte>, rid: U16, dataOff: nat, dataSize: nat) returns (changed: bool)
    requires dataOff + dataSize <= ps34377.Length
    modifies ps34377
    ensures ps34377[..] == Splice(old(ps34377[..]), dataOff, RecordPatch(old(ps34377[dataOff .. dataOff + dataSize]), rid).data)
    ensures changed == RecordPatch(old(ps34377[dataOff .. dataOff + dataSize]), rid).changed
  {
    ghost var s := ps34377[..];
    changed := false;
    if rid == RESOURCE_UNICODE_ALPHA_NAMES {
      changed := Patch1045(ps34377, dataOff, dataSize);
    }
    if rid == RESOURCE_ALPHA_NAMES {
      changed := Patch1006(ps34377, dataOff, dataSize);
    }
    SpliceOfParts(s, ps34377[..], dataOff, RecordPatch(s[dataOff .. dataOff + dataSize], rid).data);
  }

  /** patchPs34377_renameW1W2(ps34377): the blob is a vector the walk patches
      in place, and its length never changes. */
  method PatchPs34377(ps34377: array<Byte>) returns (changed: bool)
    modifies ps34377
    ensures ps34377[..] == PatchedBlob(old(ps34377[..])).data
    ensures changed == PatchedBlob(old(ps34377[..])).changed
  {
    if ps34377.Length == 0 {
      return false;
    }
    ghost var s0 := ps34377[..];
    var pos := 0;
    var len := ps34377.Length;
    var patched1006 := false;
    var patched1045 := false;
    while pos + 4 <= len
      invariant pos <= len
      invariant WalkBlob(ps34377[..], pos, patched1006, patched1045) == WalkBlob(s0, 0, false, false)
      decreases len - pos
    {
      ghost var s := ps34377[..];
      ghost var old_1006, old_1045 := patched1006, patched1045;
      var blockStart := pos;
      var ok, rid, dataOff, dataSize, next := ReadRecord(ps34377, pos);
      if !ok {
        break;
      }
      pos := next;
      ghost var r := Record(blockStart, rid, dataOff, dataSize, next);
      assert Region(s, r) == ps34377[dataOff .. dataOff + dataSize];
      var c := PatchBlockData(ps34377, rid, dataOff, dataSize);
      if rid == RESOURCE_UNICODE_ALPHA_NAMES {
        patched1045 := c;
      }
      if rid == RESOURCE_ALPHA_NAMES {
        patched1006 := c;
      }
      WalkBlobStep(s, blockStart, old_1006, old_1045);
      if pos <= blockStart {
        break;
      }
    }
    changed := patched1045 && patched1006;
  }
}
