/** The rewriting of dotted tag names that the Svelte grammar does not know. */
module TagNames {
  import opened Bytes
  import opened Utf8

  const OPEN: byte := 0x3C
  const SLASH: byte := 0x2F
  const DOT: byte := 0x2E
  const DASH: byte := 0x2D
  const UNDERSCORE: byte := 0x5F
  const DOLLAR: byte := 0x24
  const COLON: byte := 0x3A

  datatype Cow = Borrowed | Owned(bytes: seq<byte>)

  predicate IsLetter(b: byte) {
    0x41 <= b <= 0x5A || 0x61 <= b <= 0x7A
  }

  predicate IsDigit(b: byte) {
    0x30 <= b <= 0x39
  }

  predicate IsTagNameStart(b: byte) {
    IsLetter(b) || b == UNDERSCORE || b == DOLLAR
  }

  predicate IsTagNameByte(b: byte) {
    IsLetter(b) || IsDigit(b) || b == UNDERSCORE || b == DOLLAR || b == COLON || b == DASH || b == DOT
  }

  // ---------- The rewriting, byte by byte ----------

  /** Where the name of a tag opened at `o` would begin: after `<`, or after `</`. */
  function NameStart(s: seq<byte>, o: nat): nat {
    if o + 1 < |s| && s[o + 1] == SLASH then o + 2 else o + 1
  }

  /** Byte `k` lies in the name of the tag opened at `o`. */
  ghost predicate InNameOf(s: seq<byte>, o: nat, k: nat) {
    && o < k < |s| && s[o] == OPEN
    && NameStart(s, o) <= k && IsTagNameStart(s[NameStart(s, o)])
    && forall j | NameStart(s, o) <= j <= k :: IsTagNameByte(s[j])
  }

  ghost predicate InTagName(s: seq<byte>, k: nat) {
    exists o: nat :: InNameOf(s, o, k)
  }

  ghost function RewrittenByte(s: seq<byte>, k: nat): byte
    requires k < |s|
  {
    if s[k] == DOT && InTagName(s, k) then DASH else s[k]
  }

  ghost function Rewritten(s: seq<byte>): (t: seq<byte>)
    ensures |t| == |s|
    ensures forall k :: 0 <= k < |s| ==> t[k] == RewrittenByte(s, k)
  {
    seq(|s|, k requires 0 <= k < |s| => RewrittenByte(s, k))
  }

  lemma NamesStay(s: seq<byte>, o: nat, k: nat)
    ensures InNameOf(Rewritten(s), o, k) <==> InNameOf(s, o, k)
  {
    var t := Rewritten(s);
    assert forall j :: 0 <= j < |s| ==> IsTagNameByte(t[j]) == IsTagNameByte(s[j]);
    assert forall j :: 0 <= j < |s| ==> IsTagNameStart(t[j]) == IsTagNameStart(s[j]);
    assert NameStart(t, o) == NameStart(s, o);
  }

  /** The rewritten text has the same tag names at the same places, without dots; rewriting it again
      changes nothing. */
  lemma RewritingIsIdempotent(s: seq<byte>)
    ensures forall k: nat :: InTagName(Rewritten(s), k) <==> InTagName(s, k)
    ensures forall k: nat :: InTagName(Rewritten(s), k) ==> Rewritten(s)[k] != DOT
    ensures Rewritten(Rewritten(s)) == Rewritten(s)
  {
    var t := Rewritten(s);
    forall k: nat
      ensures InTagName(t, k) <==> InTagName(s, k)
    {
      forall o: nat ensures InNameOf(t, o, k) <==> InNameOf(s, o, k) {
        NamesStay(s, o, k);
      }
    }
    assert forall k :: 0 <= k < |s| ==> RewrittenByte(t, k) == t[k];
  }

  /**
   * The rewritten text is as long as the original, valid UTF-8 whenever the original is, and has its
   * character boundaries at the same offsets.
   */
  lemma RewritingKeepsOffsets(s: seq<byte>)
    ensures |Rewritten(s)| == |s|
    ensures ValidUtf8(Rewritten(s)) <==> ValidUtf8(s)
    ensures forall k: nat :: Tail(Rewritten(s), k) <==> Tail(s, k)
    ensures forall k: nat :: k < |s| && Rewritten(s)[k] == NEWLINE <==> k < |s| && s[k] == NEWLINE
  {
    SameShapeSameValidity(s, Rewritten(s));
  }

  // ---------- The rewriting, by characters ----------

  /** A letter of the basic alphabet. */
  predicate IsAlphabetic(c: char) {
    c in "ABCDEFGHIJKLMNOPQRSTUVWXYZ" || c in "abcdefghijklmnopqrstuvwxyz"
  }

  lemma UpperMeaning(b: byte)
    ensures 0x41 <= b <= 0x5A <==> b as char in "ABCDEFGHIJKLMNOPQRSTUVWXYZ"
  {
    if 0x41 <= b <= 0x5A {
      assert "ABCDEFGHIJKLMNOPQRSTUVWXYZ"[b as int - 0x41] == b as char;
    }
  }

  lemma LowerMeaning(b: byte)
    ensures 0x61 <= b <= 0x7A <==> b as char in "abcdefghijklmnopqrstuvwxyz"
  {
    if 0x61 <= b <= 0x7A {
      assert "abcdefghijklmnopqrstuvwxyz"[b as int - 0x61] == b as char;
    }
  }

  lemma DigitMeaning(b: byte)
    ensures IsDigit(b) <==> b as char in "0123456789"
  {
    if IsDigit(b) {
      assert "0123456789"[b as int - 0x30] == b as char;
    }
  }

  /** A letter, an underscore or a dollar sign. */
  predicate StartsName(c: char) {
    IsAlphabetic(c) || c in "_$"
  }

  /** A character of a name. */
  predicate ContinuesName(c: char) {
    IsAlphabetic(c) || c in "0123456789" || c in "_$:-."
  }

  lemma NameBytesMeaning(b: byte)
    ensures IsTagNameStart(b) <==> StartsName(b as char)
    ensures IsTagNameByte(b) <==> ContinuesName(b as char)
  {
    UpperMeaning(b);
    LowerMeaning(b);
    DigitMeaning(b);
  }

  /** Behind `<` or `</` at place `o` a name begins at place `n` that reaches place `k`. */
  ghost predicate NamedFrom(s: seq<byte>, o: nat, n: nat, k: nat) {
    && o < n <= k < |s| && s[o] as char == '<' && (n == o + 1 || (n == o + 2 && s[o + 1] as char == '/'))
    && StartsName(s[n] as char) && forall j | n <= j <= k :: ContinuesName(s[j] as char)
  }

  lemma NamedMeaning(s: seq<byte>, k: nat)
    ensures InTagName(s, k) <==> exists o: nat, n: nat :: NamedFrom(s, o, n, k)
  {
    forall j | 0 <= j < |s|
      ensures IsTagNameStart(s[j]) <==> StartsName(s[j] as char)
      ensures IsTagNameByte(s[j]) <==> ContinuesName(s[j] as char)
    {
      NameBytesMeaning(s[j]);
    }
    if o: nat :| InNameOf(s, o, k) {
      assert NamedFrom(s, o, NameStart(s, o), k);
    }
    if o: nat, n: nat :| NamedFrom(s, o, n, k) {
      assert NameStart(s, o) == n;
      assert InNameOf(s, o, k);
    }
  }

  /** The dots of tag names become dashes, and nothing else changes. */
  lemma RewritingMeaning(s: seq<byte>, k: nat)
    requires k < |s|
    ensures Rewritten(s)[k] as char ==
            if s[k] as char == '.' && exists o: nat, n: nat :: NamedFrom(s, o, n, k) then '-' else s[k] as char
  {
    NamedMeaning(s, k);
  }

  // ---------- The scan ----------

  /** No name opened before `index` reaches `index`. */
  ghost predicate Outside(s: seq<byte>, index: nat) {
    forall o: nat, k: nat | o < index <= k :: !InNameOf(s, o, k)
  }

  /** `bytes` holds the rewritten text before `index` and the original from there on. */
  ghost predicate RewrittenUpTo(s: seq<byte>, index: nat, bytes: seq<byte>) {
    && |bytes| == |s|
    && forall k :: 0 <= k < |s| ==> bytes[k] == if k < index then RewrittenByte(s, k) else s[k]
  }

  ghost predicate ChangedBefore(s: seq<byte>, index: nat) {
    exists k :: 0 <= k < index && k < |s| && RewrittenByte(s, k) != s[k]
  }

  lemma PassByte(s: seq<byte>, index: nat, bytes: seq<byte>)
    requires Outside(s, index) && index < |s| && RewrittenUpTo(s, index, bytes)
    requires s[index] != OPEN || NameStart(s, index) >= |s| || !IsTagNameStart(s[NameStart(s, index)])
    ensures Outside(s, index + 1) && RewrittenUpTo(s, index + 1, bytes)
    ensures ChangedBefore(s, index) ==> ChangedBefore(s, index + 1)
  {
    assert RewrittenByte(s, index) == s[index];
  }

  /** What the scan knows of the name it passes. */
  ghost predicate NameRun(s: seq<byte>, index: nat, nameEnd: nat) {
    && index < |s| && s[index] == OPEN
    && NameStart(s, index) < nameEnd <= |s| && IsTagNameStart(s[NameStart(s, index)])
    && forall j | NameStart(s, index) <= j < nameEnd :: IsTagNameByte(s[j])
  }

  lemma SkipName(s: seq<byte>, index: nat, nameEnd: nat)
    requires Outside(s, index) && NameRun(s, index, nameEnd)
    requires nameEnd < |s| ==> !IsTagNameByte(s[nameEnd])
    ensures Outside(s, nameEnd)
  {
  }

  lemma NameBytes(s: seq<byte>, index: nat, nameEnd: nat)
    requires Outside(s, index) && NameRun(s, index, nameEnd)
    ensures forall k :: index <= k < NameStart(s, index) ==> RewrittenByte(s, k) == s[k]
    ensures forall k :: NameStart(s, index) <= k < nameEnd ==>
              RewrittenByte(s, k) == if s[k] == DOT then DASH else s[k]
  {
    forall k | NameStart(s, index) <= k < nameEnd ensures InTagName(s, k) {
      assert InNameOf(s, index, k);
    }
  }

  function DotsReplaced(bytes: seq<byte>, nameStart: nat, nameEnd: nat): (replaced: seq<byte>)
    requires nameStart <= nameEnd <= |bytes|
    ensures |replaced| == |bytes|
    ensures forall k :: 0 <= k < |bytes| ==>
              replaced[k] == if nameStart <= k < nameEnd && bytes[k] == DOT then DASH else bytes[k]
  {
    seq(|bytes|, k requires 0 <= k < |bytes| =>
      if nameStart <= k < nameEnd && bytes[k] == DOT then DASH else bytes[k])
  }

  lemma PassName(s: seq<byte>, index: nat, nameEnd: nat, bytes: seq<byte>)
    requires Outside(s, index) && NameRun(s, index, nameEnd) && RewrittenUpTo(s, index, bytes)
    ensures RewrittenUpTo(s, nameEnd, DotsReplaced(bytes, NameStart(s, index), nameEnd))
  {
    NameBytes(s, index, nameEnd);
  }

  lemma KeepChanged(s: seq<byte>, index: nat, nameEnd: nat)
    requires Outside(s, index) && NameRun(s, index, nameEnd)
    ensures ChangedBefore(s, index) || DOT in s[NameStart(s, index)..nameEnd] ==> ChangedBefore(s, nameEnd)
  {
    NameBytes(s, index, nameEnd);
    if DOT in s[NameStart(s, index)..nameEnd] {
      var j :| NameStart(s, index) <= j < nameEnd && s[j] == DOT;
      assert RewrittenByte(s, j) != s[j];
    }
  }

  lemma NoDotsNoChange(bytes: seq<byte>, s: seq<byte>, nameStart: nat, nameEnd: nat)
    requires nameStart <= nameEnd <= |bytes| == |s|
    requires forall k :: nameStart <= k < nameEnd ==> bytes[k] == s[k]
    requires DOT !in s[nameStart..nameEnd]
    ensures DotsReplaced(bytes, nameStart, nameEnd) == bytes
  {
    assert forall k :: nameStart <= k < nameEnd ==> s[k] == s[nameStart..nameEnd][k - nameStart];
  }

  method OpensName(original: seq<byte>, index: nat) returns (nameStart: nat, opens: bool)
    requires index < |original|
    ensures opens <==> original[index] == OPEN && nameStart < |original| && IsTagNameStart(original[nameStart])
    ensures nameStart == NameStart(original, index)
  {
    nameStart := index + 1;
    if nameStart < |original| && original[nameStart] == SLASH {
      nameStart := nameStart + 1;
    }
    opens := original[index] == OPEN && nameStart < |original| && IsTagNameStart(original[nameStart]);
  }

  method TagNameEnd(original: seq<byte>, nameStart: nat) returns (nameEnd: nat)
    requires nameStart < |original| && IsTagNameStart(original[nameStart])
    ensures nameStart < nameEnd <= |original|
    ensures forall j | nameStart <= j < nameEnd :: IsTagNameByte(original[j])
    ensures nameEnd < |original| ==> !IsTagNameByte(original[nameEnd])
  {
    nameEnd := nameStart + 1;
    while nameEnd < |original| && IsTagNameByte(original[nameEnd])
      invariant nameStart < nameEnd <= |original|
      invariant forall j | nameStart <= j < nameEnd :: IsTagNameByte(original[j])
    {
      nameEnd := nameEnd + 1;
    }
  }

  method ReplaceDots(bytes: array<byte>, nameStart: nat, nameEnd: nat)
    requires nameStart <= nameEnd <= bytes.Length
    modifies bytes
    ensures bytes[..] == DotsReplaced(old(bytes[..]), nameStart, nameEnd)
  {
    for k := nameStart to nameEnd
      invariant bytes[..] == DotsReplaced(old(bytes[..]), nameStart, k)
    {
      if bytes[k] == DOT {
        bytes[k] := DASH;
      }
    }
  }

  lemma RewrittenAll(s: seq<byte>, bytes: seq<byte>)
    requires RewrittenUpTo(s, |s|, bytes)
    ensures bytes == Rewritten(s)
    ensures ChangedBefore(s, |s|) <==> bytes != s
  {
    if bytes != s {
      var k :| 0 <= k < |s| && bytes[k] != s[k];
    }
  }

  method Copy(original: seq<byte>) returns (bytes: array<byte>)
    ensures fresh(bytes) && bytes[..] == original
  {
    bytes := new byte[|original|](k requires 0 <= k < |original| => original[k]);
  }

  /** The text as rewritten so far: the original until a copy is made. */
  function Current(original: seq<byte>, normalized: array?<byte>): seq<byte>
    reads normalized
  {
    if normalized == null then original else normalized[..]
  }

  /** Replace the dots of one name, in a copy that is made when the first dot is met. */
  method RewriteName(original: seq<byte>, nameStart: nat, nameEnd: nat, normalized: array?<byte>)
    returns (rewritten: array?<byte>)
    requires nameStart <= nameEnd <= |original| == |Current(original, normalized)|
    requires forall k :: nameStart <= k < nameEnd ==> Current(original, normalized)[k] == original[k]
    modifies if normalized == null then {} else {normalized}
    ensures Current(original, rewritten) == DotsReplaced(old(Current(original, normalized)), nameStart, nameEnd)
    ensures rewritten == normalized || fresh(rewritten)
    ensures rewritten != null <==> normalized != null || DOT in original[nameStart..nameEnd]
  {
    rewritten := normalized;
    if DOT in original[nameStart..nameEnd] {
      if rewritten == null {
        rewritten := Copy(original);
      }
      ReplaceDots(rewritten, nameStart, nameEnd);
    } else {
      NoDotsNoChange(Current(original, normalized), original, nameStart, nameEnd);
    }
  }

  /** The scan over the whole text; `null` while no copy was needed. */
  method RewriteNames(original: seq<byte>) returns (normalized: array?<byte>)
    ensures normalized != null ==> fresh(normalized)
    ensures Current(original, normalized) == Rewritten(original)
    ensures normalized == null <==> Rewritten(original) == original
  {
    normalized := null;
    var index := 0;
    while index < |original|
      invariant index <= |original|
      invariant Outside(original, index)
      invariant normalized != null ==> fresh(normalized)
      invariant RewrittenUpTo(original, index, Current(original, normalized))
      invariant normalized != null ==> ChangedBefore(original, index)
    {
      var nameStart, opens := OpensName(original, index);
      if opens {
        var nameEnd := TagNameEnd(original, nameStart);
        PassName(original, index, nameEnd, Current(original, normalized));
        SkipName(original, index, nameEnd);
        KeepChanged(original, index, nameEnd);
        normalized := RewriteName(original, nameStart, nameEnd, normalized);
        index := nameEnd;
      } else {
        PassByte(original, index, Current(original, normalized));
        index := index + 1;
      }
    }
    RewrittenAll(original, Current(original, normalized));
  }

  /**
   * The text handed to the grammar: the original itself exactly when no tag name holds a dot, otherwise
   * a copy with the dots of tag names made dashes. The copy is always a valid string.
   */
  method ParserCompatibleSource(original: seq<byte>) returns (result: Cow)
    requires ValidUtf8(original)
    ensures result.Borrowed? <==> Rewritten(original) == original
    ensures result.Owned? ==> result.bytes == Rewritten(original) && ValidUtf8(result.bytes)
  {
    var normalized := RewriteNames(original);
    if normalized == null {
      return Borrowed;
    }
    RewritingKeepsOffsets(original);
    if !ValidUtf8(normalized[..]) {
      assert false;
    }
    return Owned(normalized[..]);
  }
}
