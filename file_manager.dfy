/** The inventory file manager: the text-level repair of the user's
    inventory file, the product counter, the full template and its
    refresh into the user's file, and the plain backup. Files are text
    here; paths are the user file `<home>/.store-inventory/inventory.json`
    and the template `<project>/src/main/resources/inventory.json`, given
    as parameters. */
module FileManager {
  import opened Wrappers
  import opened Text
  import opened Disk

  const NameKey: string := "\"name\":"
  const TypeKey: string := "\"type\":"
  const CompactInvalidType: string := "\"type\":\"product\""
  const SpacedInvalidType: string := "\"type\": \"product\""
  const TypeInsertion: string := "{\"type\":\"non-perishable\",\"name\":"
  const TypeReplacement: string := "\"type\":\"non-perishable\""
  const MissingTypeSuffix: string := ".missing-type.bak"
  const InvalidTypeSuffix: string := ".invalid-type.bak"
  const BackupSuffix: string := ".bak"

  // ---------------------------------------------------------------------
  // Detection
  // ---------------------------------------------------------------------

  /** Some `"name":` and no `"type":` anywhere in the text. */
  predicate HasMissingType(content: string) {
    Contains(content, NameKey) && !Contains(content, TypeKey)
  }

  /** `"type":"product"` or `"type": "product"` somewhere in the text. */
  predicate HasInvalidType(content: string) {
    Contains(content, CompactInvalidType) || Contains(content, SpacedInvalidType)
  }

  /** The suffix of the backup taken before repairing, when a repair is due;
      the missing-type name wins. */
  function RepairBackupSuffix(content: string): (r: Option<string>)
    ensures r.Some? <==> HasMissingType(content) || HasInvalidType(content)
    ensures r == Some(MissingTypeSuffix) <==> HasMissingType(content)
    ensures r == Some(InvalidTypeSuffix) <==> !HasMissingType(content) && HasInvalidType(content)
  {
    if HasMissingType(content) then Some(MissingTypeSuffix)
    else if HasInvalidType(content) then Some(InvalidTypeSuffix)
    else None
  }

  lemma ContainsLonger(s: string, p: string, q: string)
    requires |q| > 0 && |q| <= |p| && p[..|q|] == q && Contains(s, p)
    ensures Contains(s, q)
  {
    ContainsIffOccurs(s, p);
    var i :| MatchAt(s, p, i);
    assert MatchAt(s, q, i) by {
      assert s[i..i + |q|] == s[i..i + |p|][..|q|];
    }
    ContainsIffOccurs(s, q);
  }

  /** Both invalid spellings contain `"type":`, so the two flags are never
      set together, and a text with even one `"type":` is never taken for
      one missing its types, however many records lack one. */
  lemma FlagsExclusive(content: string)
    ensures HasInvalidType(content) ==> Contains(content, TypeKey)
    ensures Contains(content, TypeKey) ==> !HasMissingType(content)
  {
    if Contains(content, CompactInvalidType) {
      ContainsLonger(content, CompactInvalidType, TypeKey);
    }
    if Contains(content, SpacedInvalidType) {
      ContainsLonger(content, SpacedInvalidType, TypeKey);
    }
  }

  // ---------------------------------------------------------------------
  // String.replaceAll with the two repair patterns
  // ---------------------------------------------------------------------

  /** The characters of the regular-expression class `\s`. */
  predicate IsRegexSpace(c: char) {
    c == ' ' || c == '\t' || c == '\n' || c == '\U{000B}' || c == '\U{000C}' || c == '\r'
  }

  /** The end of the run of `\s` characters starting at `i` (`\s*`, greedy). */
  function SkipSpaces(s: string, i: nat): (j: nat)
    requires i <= |s|
    ensures i <= j <= |s|
    ensures forall k :: i <= k < j ==> IsRegexSpace(s[k])
    ensures j < |s| ==> !IsRegexSpace(s[j])
    decreases |s| - i
  {
    if i < |s| && IsRegexSpace(s[i]) then SkipSpaces(s, i + 1) else i
  }

  /** The two patterns: `\{\s*"name":` and `"type"\s*:\s*"product"`. */
  datatype Rule = AddMissingType | FixInvalidType

  /** Where a match of the pattern starting at `i` ends, if there is one. No
      pattern character is a space, so the greedy `\s*` never backtracks and
      the match is unique. */
  function MatchEnd(rule: Rule, s: string, i: nat): (r: Option<nat>)
    requires i <= |s|
    ensures r.Some? ==> i < r.value <= |s|
  {
    match rule
    case AddMissingType =>
      if i < |s| && s[i] == '{' then
        var j := SkipSpaces(s, i + 1);
        if MatchAt(s, NameKey, j) then Some(j + |NameKey|) else None
      else None
    case FixInvalidType =>
      if MatchAt(s, "\"type\"", i) then
        var j := SkipSpaces(s, i + 6);
        if j < |s| && s[j] == ':' then
          var k := SkipSpaces(s, j + 1);
          if MatchAt(s, "\"product\"", k) then Some(k + 9) else None
        else None
      else None
  }

  function Replacement(rule: Rule): string {
    match rule
    case AddMissingType => TypeInsertion
    case FixInvalidType => TypeReplacement
  }

  /** `replaceAll` from position `i`: scanning left to right, each match is
      replaced and scanning resumes after it; other characters are copied. */
  function RewriteFrom(rule: Rule, s: string, i: nat): string
    requires i <= |s|
    decreases |s| - i
  {
    if i == |s| then ""
    else
      match MatchEnd(rule, s, i)
      case Some(e) => Replacement(rule) + RewriteFrom(rule, s, e)
      case None => [s[i]] + RewriteFrom(rule, s, i + 1)
  }

  function ReplaceAll(rule: Rule, s: string): string {
    RewriteFrom(rule, s, 0)
  }

  /** The text `fixUserInventoryFile` produces: types inserted when they are
      all missing, then the invalid type replaced when it was found. */
  function FixedContent(content: string): string {
    var inserted := if HasMissingType(content) then ReplaceAll(AddMissingType, content) else content;
    if HasInvalidType(content) then ReplaceAll(FixInvalidType, inserted) else inserted
  }

  /** Where no match starts, one character is copied. */
  lemma CopyOne(rule: Rule, s: string, i: nat)
    requires i < |s| && MatchEnd(rule, s, i).None?
    ensures RewriteFrom(rule, s, i) == [s[i]] + RewriteFrom(rule, s, i + 1)
  {
  }

  /** Where no match starts, the text is copied. */
  lemma {:induction false} CopyUntil(rule: Rule, s: string, i: nat, m: nat)
    requires i <= m <= |s|
    requires forall j :: i <= j < m ==> MatchEnd(rule, s, j).None?
    ensures RewriteFrom(rule, s, i) == s[i..m] + RewriteFrom(rule, s, m)
    decreases m - i
  {
    if i < m {
      CopyOne(rule, s, i);
      CopyUntil(rule, s, i + 1, m);
      SliceCons(s, i, m);
      PrependCopied(RewriteFrom(rule, s, i), s[i], RewriteFrom(rule, s, i + 1), s[i + 1..m], RewriteFrom(rule, s, m));
    }
  }

  lemma SliceCons(s: string, i: nat, m: nat)
    requires i < m <= |s|
    ensures s[i..m] == [s[i]] + s[i + 1..m]
  {
  }

  lemma PrependCopied(x: string, c: char, y: string, u: string, z: string)
    requires x == [c] + y && y == u + z
    ensures x == ([c] + u) + z
  {
  }

  /** Without a match anywhere, `replaceAll` returns its input. */
  lemma ReplaceAllWithoutMatch(rule: Rule, s: string)
    requires forall j :: 0 <= j < |s| ==> MatchEnd(rule, s, j).None?
    ensures ReplaceAll(rule, s) == s
  {
    CopyUntil(rule, s, 0, |s|);
  }

  /** A match is replaced and scanning resumes after it. */
  lemma RewriteAtMatch(rule: Rule, s: string, i: nat, e: nat)
    requires i < |s| && MatchEnd(rule, s, i) == Some(e)
    ensures RewriteFrom(rule, s, i) == Replacement(rule) + RewriteFrom(rule, s, e)
  {
  }

  /** A rewrite that changed something contains the replacement text. */
  lemma {:induction false} ChangedHasReplacement(rule: Rule, s: string, i: nat)
    requires i <= |s| && RewriteFrom(rule, s, i) != s[i..]
    ensures exists k :: MatchAt(RewriteFrom(rule, s, i), Replacement(rule), k)
    decreases |s| - i
  {
    if i == |s| {
      assert false;
    }
    var out := RewriteFrom(rule, s, i);
    var r := Replacement(rule);
    match MatchEnd(rule, s, i)
    case Some(e) =>
      RewriteAtMatch(rule, s, i, e);
      MatchPrefix(r, RewriteFrom(rule, s, e));
    case None =>
      CopyOne(rule, s, i);
      var rest := RewriteFrom(rule, s, i + 1);
      SliceCons(s, i, |s|);
      assert s[i..] == s[i..|s|] && s[i + 1..] == s[i + 1..|s|];
      ChangedHasReplacement(rule, s, i + 1);
      var k :| MatchAt(rest, r, k);
      MatchShiftRight([s[i]], rest, r, k);
  }

  /** The inserted text opens with '{', holds `"type":` at 1, ends in ':',
      and its only quote followed by 't' is that one. */
  lemma TypeInsertionShape()
    ensures |TypeInsertion| == 32 && TypeInsertion[0] == '{' && TypeInsertion[31] == ':'
    ensures TypeInsertion[8] == '"' && TypeInsertion[9] == 'n'
    ensures forall k :: 0 <= k < 31 && TypeInsertion[k] == '"' && TypeInsertion[k + 1] == 't' ==> k == 1
    ensures MatchAt(TypeInsertion, TypeKey, 1)
  {
    MatchByChars(TypeInsertion, TypeKey, 1);
  }

  /** The invalid spellings, both of the form `"t...`, with no '{'. */
  lemma InvalidSpellingsShape()
    ensures |CompactInvalidType| == 16 && |SpacedInvalidType| == 17
    ensures CompactInvalidType[0] == '"' && CompactInvalidType[1] == 't' && CompactInvalidType[8] == 'p'
    ensures SpacedInvalidType[0] == '"' && SpacedInvalidType[1] == 't' && SpacedInvalidType[7] == ' '
    ensures '{' !in CompactInvalidType && '{' !in SpacedInvalidType
  {
  }

  /** No invalid spelling starts inside an inserted text. */
  lemma InsertedTextHasNoInvalidType(rest: string, w: string, k: nat)
    requires (w == CompactInvalidType || w == SpacedInvalidType) && k < |TypeInsertion|
    ensures !MatchAt(TypeInsertion + rest, w, k)
  {
    TypeInsertionShape();
    InvalidSpellingsShape();
    var out := TypeInsertion + rest;
    if k == 31 {
      MismatchAt(out, w, k, 0);
    } else if TypeInsertion[k] != '"' {
      MismatchAt(out, w, k, 0);
    } else if TypeInsertion[k + 1] != 't' {
      MismatchAt(out, w, k, 1);
    } else if w == CompactInvalidType {
      MismatchAt(out, w, k, 8);
    } else {
      MismatchAt(out, w, k, 7);
    }
  }

  /** What the type insertion produces at position `i` starts with `w`, a
      text without '{', only if the input already did. */
  lemma {:induction false} CopiedPrefix(s: string, i: nat, w: string)
    requires i <= |s| && '{' !in w
    requires StartsWith(RewriteFrom(AddMissingType, s, i), w)
    ensures MatchAt(s, w, i)
    decreases |w|
  {
    if |w| > 0 {
      var out := RewriteFrom(AddMissingType, s, i);
      if i == |s| {
        assert false;
      }
      assert out[0] == w[0];
      if MatchEnd(AddMissingType, s, i).Some? {
        TypeInsertionShape();
        assert false;
      }
      CopyOne(AddMissingType, s, i);
      var rest := RewriteFrom(AddMissingType, s, i + 1);
      StartsWithCons(s[i], rest, w);
      CopiedPrefix(s, i + 1, w[1..]);
      MatchCons(s, w, i);
    }
  }

  /** Inserting types never creates an invalid type: every occurrence of
      either invalid spelling in the result was already in the input. */
  lemma {:induction false} InsertionAddsNoInvalidType(s: string, i: nat, w: string, k: nat)
    requires i <= |s| && (w == CompactInvalidType || w == SpacedInvalidType)
    requires MatchAt(RewriteFrom(AddMissingType, s, i), w, k)
    ensures exists m :: MatchAt(s, w, m)
    decreases |s| - i, 1
  {
    if i == |s| {
      assert false;
    }
    match MatchEnd(AddMissingType, s, i)
    case Some(e) => InvalidTypeAfterInsertion(s, i, e, w, k);
    case None => InvalidTypeAfterCopy(s, i, w, k);
  }

  /** The case where the scan inserts the type at `i`. */
  lemma {:induction false} InvalidTypeAfterInsertion(s: string, i: nat, e: nat, w: string, k: nat)
    requires i < |s| && MatchEnd(AddMissingType, s, i) == Some(e)
    requires w == CompactInvalidType || w == SpacedInvalidType
    requires MatchAt(RewriteFrom(AddMissingType, s, i), w, k)
    ensures exists m :: MatchAt(s, w, m)
    decreases |s| - i, 0
  {
    RewriteAtMatch(AddMissingType, s, i, e);
    var rest := RewriteFrom(AddMissingType, s, e);
    if k >= |TypeInsertion| {
      MatchInRight(TypeInsertion, rest, w, k);
      InsertionAddsNoInvalidType(s, e, w, k - |TypeInsertion|);
    } else {
      InsertedTextHasNoInvalidType(rest, w, k);
      assert false;
    }
  }

  /** The case where the scan copies the character at `i`. */
  lemma {:induction false} InvalidTypeAfterCopy(s: string, i: nat, w: string, k: nat)
    requires i < |s| && MatchEnd(AddMissingType, s, i).None?
    requires w == CompactInvalidType || w == SpacedInvalidType
    requires MatchAt(RewriteFrom(AddMissingType, s, i), w, k)
    ensures exists m :: MatchAt(s, w, m)
    decreases |s| - i, 0
  {
    CopyOne(AddMissingType, s, i);
    if k >= 1 {
      MatchInRight([s[i]], RewriteFrom(AddMissingType, s, i + 1), w, k);
      InsertionAddsNoInvalidType(s, i + 1, w, k - 1);
    } else {
      InvalidTypeCopiedFirst(s, i, w);
    }
  }

  /** An invalid type that starts at a copied character starts there in the input too. */
  lemma InvalidTypeCopiedFirst(s: string, i: nat, w: string)
    requires i < |s| && MatchEnd(AddMissingType, s, i).None?
    requires w == CompactInvalidType || w == SpacedInvalidType
    requires MatchAt(RewriteFrom(AddMissingType, s, i), w, 0)
    ensures exists m :: MatchAt(s, w, m)
  {
    assert StartsWith(RewriteFrom(AddMissingType, s, i), w);
    InvalidSpellingsShape();
    CopiedPrefix(s, i, w);
  }

  /** An invalid type after the insertion was there before it. */
  lemma InsertionKeepsValidTypes(content: string)
    ensures HasInvalidType(ReplaceAll(AddMissingType, content)) ==> HasInvalidType(content)
  {
    var f := ReplaceAll(AddMissingType, content);
    if Contains(f, CompactInvalidType) {
      ContainsIffOccurs(f, CompactInvalidType);
      var j :| MatchAt(f, CompactInvalidType, j);
      InsertionAddsNoInvalidType(content, 0, CompactInvalidType, j);
      ContainsIffOccurs(content, CompactInvalidType);
    }
    if Contains(f, SpacedInvalidType) {
      ContainsIffOccurs(f, SpacedInvalidType);
      var j :| MatchAt(f, SpacedInvalidType, j);
      InsertionAddsNoInvalidType(content, 0, SpacedInvalidType, j);
      ContainsIffOccurs(content, SpacedInvalidType);
    }
  }

  /** The missing-type repair is final: run again on its own output it
      changes nothing, so the second run writes nothing; and a text it
      changed raises neither flag any more. */
  lemma MissingTypeRepairIdempotent(content: string)
    requires HasMissingType(content)
    ensures FixedContent(FixedContent(content)) == FixedContent(content)
    ensures FixedContent(content) != content ==> RepairBackupSuffix(FixedContent(content)).None?
  {
    FlagsExclusive(content);
    var f := ReplaceAll(AddMissingType, content);
    assert FixedContent(content) == f;
    assert content[0..] == content;
    if f != content {
      ChangedHasReplacement(AddMissingType, content, 0);
      var k :| MatchAt(f, TypeInsertion, k);
      TypeInsertionShape();
      MatchInside(f, TypeInsertion, TypeKey, k, 1);
      ContainsIffOccurs(f, TypeKey);
      FlagsExclusive(f);
      InsertionKeepsValidTypes(content);
    }
  }

  /** The invalid-type repair is not always final: a `"type":"product"`
      directly followed by `type":"product"` is repaired into text that
      holds `"type":"product"` again, so a second run rewrites it. */
  lemma InvalidTypeRepairNotIdempotent()
    ensures var content := CompactInvalidType + "type\":\"product\"";
      FixedContent(FixedContent(content)) != FixedContent(content)
  {
    var tail := "type\":\"product\"";
    InvalidTypeFirstRepair(tail);
    InvalidTypeSecondRepair(tail);
  }

  /** The literal facts the counterexample rests on. */
  lemma RepairTextsShape(tail: string)
    requires tail == "type\":\"product\""
    ensures |TypeReplacement| == 23 && |CompactInvalidType| == 16 && |tail| == 15
    ensures MatchAt(CompactInvalidType, TypeKey, 0) && MatchAt(TypeReplacement, TypeKey, 0)
    ensures MatchAt(CompactInvalidType, "\"type\"", 0) && CompactInvalidType[6] == ':' && CompactInvalidType[7] == '"'
    ensures MatchAt(CompactInvalidType, "\"product\"", 7)
    ensures CompactInvalidType == "\"" + tail
    ensures forall k :: 0 <= k < |tail| && tail[k] == '"' ==> k == 4 || k == 6 || k == 14
    ensures tail[5] == ':' && tail[7] == 'p'
    ensures forall k :: 0 < k < 22 && TypeReplacement[k] == '"' ==> k == 5 || k == 7
    ensures TypeReplacement[6] == ':' && TypeReplacement[7] == '"' && TypeReplacement[8] == 'n' && TypeReplacement[22] == '"'
  {
    InvalidTailShape(tail);
    ReplacementShape();
  }

  lemma InvalidTailShape(tail: string)
    requires tail == "type\":\"product\""
    ensures |CompactInvalidType| == 16 && |tail| == 15
    ensures MatchAt(CompactInvalidType, TypeKey, 0)
    ensures MatchAt(CompactInvalidType, "\"type\"", 0) && CompactInvalidType[6] == ':' && CompactInvalidType[7] == '"'
    ensures MatchAt(CompactInvalidType, "\"product\"", 7)
    ensures CompactInvalidType == "\"" + tail
    ensures forall k :: 0 <= k < |tail| && tail[k] == '"' ==> k == 4 || k == 6 || k == 14
    ensures tail[5] == ':' && tail[7] == 'p'
  {
    MatchByChars(CompactInvalidType, TypeKey, 0);
    MatchByChars(CompactInvalidType, "\"type\"", 0);
    MatchByChars(CompactInvalidType, "\"product\"", 7);
  }

  lemma ReplacementShape()
    ensures |TypeReplacement| == 23
    ensures MatchAt(TypeReplacement, TypeKey, 0)
    ensures forall k :: 0 < k < 22 && TypeReplacement[k] == '"' ==> k == 5 || k == 7
    ensures TypeReplacement[6] == ':' && TypeReplacement[7] == '"' && TypeReplacement[8] == 'n' && TypeReplacement[22] == '"'
  {
    MatchByChars(TypeReplacement, TypeKey, 0);
  }

  /** Where the compact invalid spelling occurs, the pattern matches it. */
  lemma CompactMatchEnd(s: string, i: nat)
    requires MatchAt(s, CompactInvalidType, i)
    ensures MatchEnd(FixInvalidType, s, i) == Some(i + 16)
  {
    RepairTextsShape("type\":\"product\"");
    MatchInside(s, CompactInvalidType, "\"type\"", i, 0);
    MatchInside(s, CompactInvalidType, "\"product\"", i, 7);
    assert s[i + 6] == CompactInvalidType[6] && s[i + 7] == CompactInvalidType[7] by {
      assert s[i..i + 16][6] == s[i + 6] && s[i..i + 16][7] == s[i + 7];
    }
  }

  /** No match starts where `"t` does not. */
  lemma NoTypeQuoteAt(s: string, j: nat)
    requires j <= |s|
    requires j + 6 > |s| || s[j] != '"' || s[j + 1] != 't'
    ensures MatchEnd(FixInvalidType, s, j).None?
  {
    if j + 6 <= |s| {
      if s[j] != '"' {
        MismatchAt(s, "\"type\"", j, 0);
      } else {
        MismatchAt(s, "\"type\"", j, 1);
      }
    }
  }

  /** First run: the leading `"type":"product"` is replaced; the overlapping
      occurrence starting at its closing quote is not, since matching resumes
      after the match. */
  lemma InvalidTypeFirstRepair(tail: string)
    requires tail == "type\":\"product\""
    ensures FixedContent(CompactInvalidType + tail) == TypeReplacement + tail
  {
    RepairTextsShape(tail);
    var c := CompactInvalidType + tail;
    assert MatchAt(c, CompactInvalidType, 0) by {
      assert c[0..16] == CompactInvalidType;
    }
    MatchInside(c, CompactInvalidType, TypeKey, 0, 0);
    ContainsIffOccurs(c, TypeKey);
    ContainsIffOccurs(c, CompactInvalidType);
    FlagsExclusive(c);
    assert FixedContent(c) == ReplaceAll(FixInvalidType, c);
    CompactMatchEnd(c, 0);
    RewriteAtMatch(FixInvalidType, c, 0, 16);
    forall j | 16 <= j < 31 ensures MatchEnd(FixInvalidType, c, j).None? {
      assert c[j] == tail[j - 16];
      if j + 1 < 31 {
        assert c[j + 1] == tail[j - 15];
      }
      NoTypeQuoteAt(c, j);
    }
    CopyUntil(FixInvalidType, c, 16, 31);
    assert c[16..31] == tail;
  }

  /** The last quote of the replacement and the tail spell the compact
      invalid type. */
  lemma CompactAtReplacementEnd(tail: string)
    requires tail == "type\":\"product\""
    ensures MatchAt(TypeReplacement + tail, CompactInvalidType, 22)
  {
    RepairTextsShape(tail);
    var f := TypeReplacement + tail;
    assert f[22..38] == [f[22]] + tail;
  }

  /** The repaired text holds the valid type at its start and the compact
      invalid spelling at its last quote of the replacement, so the second
      run only replaces. */
  lemma SecondRepairOnlyReplaces(tail: string)
    requires tail == "type\":\"product\""
    ensures FixedContent(TypeReplacement + tail) == ReplaceAll(FixInvalidType, TypeReplacement + tail)
  {
    RepairTextsShape(tail);
    var f := TypeReplacement + tail;
    MatchPrefix(TypeReplacement, tail);
    MatchInside(f, TypeReplacement, TypeKey, 0, 0);
    CompactAtReplacementEnd(tail);
    ContainsIffOccurs(f, TypeKey);
    ContainsIffOccurs(f, CompactInvalidType);
    FlagsExclusive(f);
  }

  /** The second run copies the first 22 characters: no match starts there. */
  lemma SecondRepairCopiesHead(tail: string)
    requires tail == "type\":\"product\""
    ensures var f := TypeReplacement + tail;
      RewriteFrom(FixInvalidType, f, 0) == f[0..22] + RewriteFrom(FixInvalidType, f, 22)
  {
    RepairTextsShape(tail);
    var f := TypeReplacement + tail;
    assert SkipSpaces(f, 6) == 6 && SkipSpaces(f, 7) == 7;
    MismatchAt(f, "\"product\"", 7, 1);
    assert MatchEnd(FixInvalidType, f, 0).None?;
    forall j | 0 < j < 22 ensures MatchEnd(FixInvalidType, f, j).None? {
      NoTypeQuoteAt(f, j);
    }
    CopyUntil(FixInvalidType, f, 0, 22);
  }

  /** Second run: the text now holds `"type":"product"` at its old closing
      quote, which is replaced, and the text grows. */
  lemma InvalidTypeSecondRepair(tail: string)
    requires tail == "type\":\"product\""
    ensures |TypeReplacement + tail| == 38
    ensures |FixedContent(TypeReplacement + tail)| == 45
  {
    RepairTextsShape(tail);
    var f := TypeReplacement + tail;
    SecondRepairOnlyReplaces(tail);
    SecondRepairCopiesHead(tail);
    CompactAtReplacementEnd(tail);
    CompactMatchEnd(f, 22);
    RewriteAtMatch(FixInvalidType, f, 22, 38);
  }

  // ---------------------------------------------------------------------
  // countProducts
  // ---------------------------------------------------------------------

  /** The number of positions at or after `from` where `p` occurs. */
  function Occurrences(s: string, p: string, from: nat): nat
    decreases |s| - from
  {
    if from + |p| > |s| then 0
    else (if MatchAt(s, p, from) then 1 else 0) + Occurrences(s, p, from + 1)
  }

  /** The occurrences at or after `from` are those at or after the first one. */
  lemma {:induction false} OccurrencesFromFirst(s: string, p: string, from: nat)
    requires |p| > 0
    ensures var r := IndexOf(s, p, from);
      Occurrences(s, p, from) == if r < 0 then 0 else 1 + Occurrences(s, p, r + 1)
    decreases |s| - from
  {
    var r := IndexOf(s, p, from);
    if from + |p| > |s| {
    } else if !MatchAt(s, p, from) {
      OccurrencesFromFirst(s, p, from + 1);
      var r' := IndexOf(s, p, from + 1);
      if r >= 0 {
        assert r' >= 0 && r' <= r;
        assert r <= r';
      }
    }
  }

  /** `countProducts`: counts `"name":` with `indexOf` from index 1 on. */
  method CountProducts(json: string) returns (count: nat)
    ensures count == Occurrences(json, NameKey, 1)
  {
    count := 0;
    var index := 0;
    index := IndexOf(json, NameKey, index + 1);
    OccurrencesFromFirst(json, NameKey, 1);
    while index != -1
      invariant index == -1 || (1 <= index && MatchAt(json, NameKey, index))
      invariant count + (if index == -1 then 0 else 1 + Occurrences(json, NameKey, index + 1)) == Occurrences(json, NameKey, 1)
      decreases if index < 0 then 0 else |json| + 1 - index
    {
      count := count + 1;
      OccurrencesFromFirst(json, NameKey, index + 1);
      index := IndexOf(json, NameKey, index + 1);
    }
  }

  /** A `"name":` at the very start of the text is not counted. */
  lemma CountMissesStart(json: string)
    requires MatchAt(json, NameKey, 0)
    ensures Occurrences(json, NameKey, 1) == Occurrences(json, NameKey, 0) - 1
  {
  }

  /** A text without some character of the pattern holds no occurrence. */
  lemma {:induction false} NoOccurrenceWithout(s: string, p: string, c: char, from: nat)
    requires c in p && c !in s
    ensures Occurrences(s, p, from) == 0
    decreases |s| - from
  {
    if from + |p| <= |s| {
      NoOccurrenceWithout(s, p, c, from + 1);
      var k :| 0 <= k < |p| && p[k] == c;
      assert s[from + k] in s;
      MismatchAt(s, p, from, k);
    }
  }

  /** Occurrences add up over a concatenation when no occurrence can span
      the seam: one side of it is a character the pattern does not have. */
  lemma {:induction false} OccurrencesConcat(x: string, y: string, p: string, from: nat)
    requires |p| > 0 && from <= |x|
    requires (|x| > 0 && x[|x| - 1] !in p) || (|y| > 0 && y[0] !in p)
    ensures Occurrences(x + y, p, from) == Occurrences(x, p, from) + Occurrences(y, p, 0)
    decreases |x| - from
  {
    var s := x + y;
    if from == |x| {
      OccurrencesShift(x, y, p, 0);
      assert Occurrences(x, p, from) == 0;
    } else {
      OccurrencesConcat(x, y, p, from + 1);
      if from + |p| <= |x| {
        assert s[from..from + |p|] == x[from..from + |p|];
      } else {
        assert Occurrences(x, p, from) == 0;
        assert Occurrences(x, p, from + 1) == 0;
        if |x| > 0 && x[|x| - 1] !in p {
          assert p[|x| - 1 - from] in p;
          MismatchAt(s, p, from, |x| - 1 - from);
        } else {
          assert p[|x| - from] in p;
          MismatchAt(s, p, from, |x| - from);
        }
        if from + |p| > |s| {
          assert from + 1 + |p| > |s|;
        }
      }
    }
  }

  /** The occurrences in `y` are found again, shifted, in `x + y`. */
  lemma {:induction false} OccurrencesShift(x: string, y: string, p: string, from: nat)
    requires |p| > 0 && from <= |y|
    ensures Occurrences(x + y, p, |x| + from) == Occurrences(y, p, from)
    decreases |y| - from
  {
    if from + |p| <= |y| {
      OccurrencesShift(x, y, p, from + 1);
      assert (x + y)[|x| + from..|x| + from + |p|] == y[from..from + |p|];
    }
  }

  // ---------------------------------------------------------------------
  // The built-in texts
  // ---------------------------------------------------------------------

  /** The parts joined with a separator between each two. */
  function JoinWith(parts: seq<string>, sep: string): string {
    if |parts| == 0 then ""
    else if |parts| == 1 then parts[0]
    else parts[0] + sep + JoinWith(parts[1..], sep)
  }

  /** The occurrences of `p` in each part, added up. */
  function CountEach(parts: seq<string>, p: string): nat {
    if |parts| == 0 then 0 else Occurrences(parts[0], p, 0) + CountEach(parts[1..], p)
  }

  /** A separator that holds no occurrence and starts and ends with
      characters the pattern lacks adds none to a join. */
  lemma {:induction false} JoinWithCount(parts: seq<string>, sep: string, p: string)
    requires |p| > 0 && |sep| > 0 && sep[0] !in p && sep[|sep| - 1] !in p
    requires Occurrences(sep, p, 0) == 0
    ensures Occurrences(JoinWith(parts, sep), p, 0) == CountEach(parts, p)
  {
    if |parts| == 1 {
      assert CountEach(parts, p) == Occurrences(parts[0], p, 0) + CountEach(parts[1..], p);
    } else if |parts| > 1 {
      var rest := JoinWith(parts[1..], sep);
      JoinWithCount(parts[1..], sep, p);
      assert JoinWith(parts, sep) == parts[0] + (sep + rest);
      OccurrencesConcat(parts[0], sep + rest, p, 0);
      OccurrencesConcat(sep, rest, p, 0);
    }
  }

  /** A line `    "key": value` of an element. */
  function Member(key: string, value: string): string {
    "    \"" + key + "\": " + value
  }

  function Quoted(s: string): string {
    "\"" + s + "\""
  }

  /** An element: its members one per line, between braces. */
  function Element(members: seq<string>): string {
    "  {\n" + JoinWith(members, ",\n") + "\n  }"
  }

  /** A JSON array text: its elements separated by ",\n". */
  function ArrayText(elements: seq<string>): string {
    "[\n" + JoinWith(elements, ",\n") + "\n]"
  }

  /** One perishable element, as `createFullTemplate` lays it out. */
  function PerishableElement(name: string, price: string, quantity: string, discount: string, expiration: string): string {
    Element([Member("type", Quoted("perishable")), Member("name", Quoted(name)), Member("price", price),
             Member("quantity", quantity), Member("discount", discount), Member("expirationDate", Quoted(expiration))])
  }

  /** One non-perishable element. */
  function PlainElement(name: string, price: string, quantity: string, discount: string): string {
    Element([Member("type", Quoted("non-perishable")), Member("name", Quoted(name)), Member("price", price),
             Member("quantity", quantity), Member("discount", discount)])
  }

  /** A product of a built-in text: its values as written, and the
      expiration date of a perishable one. */
  datatype Entry = Entry(name: string, price: string, quantity: string, discount: string, expiration: Option<string>)

  function EntryElement(e: Entry): string {
    match e.expiration
    case Some(date) => PerishableElement(e.name, e.price, e.quantity, e.discount, date)
    case None => PlainElement(e.name, e.price, e.quantity, e.discount)
  }

  function Elements(entries: seq<Entry>): (r: seq<string>)
    ensures |r| == |entries|
    ensures forall i :: 0 <= i < |entries| ==> r[i] == EntryElement(entries[i])
  {
    seq(|entries|, i requires 0 <= i < |entries| => EntryElement(entries[i]))
  }

  /** The ten products of `createFullTemplate`, in order. */
  const TemplateEntries: seq<Entry> := [
    Entry("Apples", "1.99", "50", "0.05", Some("2025-04-25")),
    Entry("Bananas", "0.89", "40", "0.0", Some("2025-04-20")),
    Entry("Strawberries", "3.49", "20", "0.1", Some("2025-04-19")),
    Entry("Tomatoes", "2.29", "30", "0.0", Some("2025-04-24")),
    Entry("Lettuce", "1.79", "15", "0.05", Some("2025-04-18")),
    Entry("Cucumbers", "0.99", "25", "0.0", Some("2025-04-23")),
    Entry("Broccoli", "2.49", "18", "0.05", Some("2025-04-21")),
    Entry("Grapes", "4.99", "12", "0.1", Some("2025-04-19")),
    Entry("Potatoes", "0.79", "60", "0.0", None),
    Entry("Onions", "0.89", "45", "0.05", None)
  ]

  const MinimalEntries: seq<Entry> := [Entry("Example Product", "9.99", "10", "0.0", None)]

  /** The text `createFullTemplate` writes. */
  const TemplateText: string := ArrayText(Elements(TemplateEntries))

  /** The text `createMinimalValidInventory` writes. */
  const MinimalInventoryText: string := ArrayText(Elements(MinimalEntries))

  lemma NameKeyShape()
    ensures 'm' in NameKey && ':' in NameKey
    ensures ' ' !in NameKey && '\n' !in NameKey && ',' !in NameKey && '[' !in NameKey
    ensures NameKey[0] == '"'
    ensures Occurrences(NameKey, NameKey, 0) == 1
  {
    assert MatchAt(NameKey, NameKey, 0);
  }

  /** The separator and the brackets hold no `"name":`. */
  lemma FramesHaveNoName()
    ensures Occurrences(",\n", NameKey, 0) == 0
    ensures Occurrences("  {\n", NameKey, 0) == 0 && Occurrences("\n  }", NameKey, 0) == 0
    ensures Occurrences("[\n", NameKey, 0) == 0 && Occurrences("\n]", NameKey, 0) == 0
  {
    NameKeyShape();
    NoOccurrenceWithout(",\n", NameKey, 'm', 0);
    NoOccurrenceWithout("  {\n", NameKey, 'm', 0);
    NoOccurrenceWithout("\n  }", NameKey, 'm', 0);
    NoOccurrenceWithout("[\n", NameKey, 'm', 0);
    NoOccurrenceWithout("\n]", NameKey, 'm', 0);
  }

  /** The `"name"` line holds one `"name":` when the name has no ':'. */
  lemma NameMemberCount(value: string)
    requires ':' !in value
    ensures Occurrences(Member("name", value), NameKey, 0) == 1
  {
    NameKeyShape();
    var tail := " " + value;
    assert Member("name", value) == "    " + (NameKey + tail);
    OccurrencesConcat("    ", NameKey + tail, NameKey, 0);
    OccurrencesConcat(NameKey, tail, NameKey, 0);
    NoOccurrenceWithout("    ", NameKey, 'm', 0);
    NoOccurrenceWithout(tail, NameKey, ':', 0);
  }

  /** Any other line holds none when neither key nor value has an 'm'. */
  lemma OtherMemberCount(key: string, value: string)
    requires 'm' !in key && 'm' !in value
    ensures Occurrences(Member(key, value), NameKey, 0) == 0
  {
    NameKeyShape();
    NoOccurrenceWithout(Member(key, value), NameKey, 'm', 0);
  }

  /** An element holds as many `"name":` as its lines. */
  lemma ElementCount(members: seq<string>)
    ensures Occurrences(Element(members), NameKey, 0) == CountEach(members, NameKey)
  {
    NameKeyShape();
    FramesHaveNoName();
    var j := JoinWith(members, ",\n");
    JoinWithCount(members, ",\n", NameKey);
    assert Element(members) == "  {\n" + (j + "\n  }");
    OccurrencesConcat("  {\n", j + "\n  }", NameKey, 0);
    OccurrencesConcat(j, "\n  }", NameKey, 0);
  }

  /** `countProducts` of an array text: the `"name":` of all its elements. */
  lemma ArrayTextCount(elements: seq<string>)
    ensures Occurrences(ArrayText(elements), NameKey, 1) == CountEach(elements, NameKey)
  {
    NameKeyShape();
    FramesHaveNoName();
    var j := JoinWith(elements, ",\n");
    JoinWithCount(elements, ",\n", NameKey);
    var text := ArrayText(elements);
    assert text == "[\n" + (j + "\n]");
    OccurrencesConcat("[\n", j + "\n]", NameKey, 0);
    OccurrencesConcat(j, "\n]", NameKey, 0);
    MismatchAt(text, NameKey, 0, 0);
  }

  /** Lines whose counts are one `"name"` line among lines without. */
  lemma CountEachOneName(members: seq<string>)
    requires |members| >= 2
    requires Occurrences(members[1], NameKey, 0) == 1
    requires forall i :: 0 <= i < |members| && i != 1 ==> Occurrences(members[i], NameKey, 0) == 0
    ensures CountEach(members, NameKey) == 1
  {
    assert CountEach(members, NameKey) == Occurrences(members[0], NameKey, 0) + CountEach(members[1..], NameKey);
    assert CountEach(members[1..], NameKey) == 1 + CountEach(members[2..], NameKey);
    CountEachNone(members[2..]);
  }

  lemma {:induction false} CountEachNone(parts: seq<string>)
    requires forall i :: 0 <= i < |parts| ==> Occurrences(parts[i], NameKey, 0) == 0
    ensures CountEach(parts, NameKey) == 0
  {
    if |parts| > 0 {
      CountEachNone(parts[1..]);
    }
  }

  lemma QuotedLacks(s: string, c: char)
    requires c != '"' && c !in s
    ensures c !in Quoted(s)
  {
  }

  /** A perishable element holds one `"name":` when its name has no ':'
      and its other values no 'm'. */
  lemma PerishableElementCount(name: string, price: string, quantity: string, discount: string, expiration: string)
    requires ':' !in name && 'm' !in price && 'm' !in quantity && 'm' !in discount && 'm' !in expiration
    ensures Occurrences(PerishableElement(name, price, quantity, discount, expiration), NameKey, 0) == 1
  {
    var kind := Quoted("perishable");
    var members := [Member("type", kind), Member("name", Quoted(name)), Member("price", price),
                    Member("quantity", quantity), Member("discount", discount), Member("expirationDate", Quoted(expiration))];
    PerishableMembersCount(kind, name, price, quantity, discount, expiration, members);
    ElementCount(members);
  }

  lemma PerishableMembersCount(kind: string, name: string, price: string, quantity: string, discount: string,
                               expiration: string, members: seq<string>)
    requires 'm' !in kind && ':' !in name && 'm' !in price && 'm' !in quantity && 'm' !in discount && 'm' !in expiration
    requires members == [Member("type", kind), Member("name", Quoted(name)), Member("price", price),
                         Member("quantity", quantity), Member("discount", discount),
                         Member("expirationDate", Quoted(expiration))]
    ensures CountEach(members, NameKey) == 1
  {
    CommonMembersCount(kind, price, quantity, discount);
    NameMemberCount(Quoted(name));
    QuotedLacks(expiration, 'm');
    OtherMemberCount("expirationDate", Quoted(expiration));
    CountEachOneName(members);
  }

  /** A non-perishable element holds one `"name":` on the same terms. */
  lemma PlainElementCount(name: string, price: string, quantity: string, discount: string)
    requires ':' !in name && 'm' !in price && 'm' !in quantity && 'm' !in discount
    ensures Occurrences(PlainElement(name, price, quantity, discount), NameKey, 0) == 1
  {
    var kind := Quoted("non-perishable");
    var members := [Member("type", kind), Member("name", Quoted(name)), Member("price", price),
                    Member("quantity", quantity), Member("discount", discount)];
    PlainMembersCount(kind, name, price, quantity, discount, members);
    ElementCount(members);
  }

  /** The `type`, `price`, `quantity` and `discount` lines hold no `"name":`. */
  lemma CommonMembersCount(kind: string, price: string, quantity: string, discount: string)
    requires 'm' !in kind && 'm' !in price && 'm' !in quantity && 'm' !in discount
    ensures Occurrences(Member("type", kind), NameKey, 0) == 0
    ensures Occurrences(Member("price", price), NameKey, 0) == 0
    ensures Occurrences(Member("quantity", quantity), NameKey, 0) == 0
    ensures Occurrences(Member("discount", discount), NameKey, 0) == 0
  {
    OtherMemberCount("type", kind);
    OtherMemberCount("price", price);
    OtherMemberCount("quantity", quantity);
    OtherMemberCount("discount", discount);
  }

  lemma PlainMembersCount(kind: string, name: string, price: string, quantity: string, discount: string,
                          members: seq<string>)
    requires 'm' !in kind && ':' !in name && 'm' !in price && 'm' !in quantity && 'm' !in discount
    requires members == [Member("type", kind), Member("name", Quoted(name)), Member("price", price),
                         Member("quantity", quantity), Member("discount", discount)]
    ensures CountEach(members, NameKey) == 1
  {
    CommonMembersCount(kind, price, quantity, discount);
    NameMemberCount(Quoted(name));
    CountEachOneName(members);
  }

  /** A name without ':' and values without 'm'. */
  predicate PlainValues(e: Entry) {
    ':' !in e.name && 'm' !in e.price && 'm' !in e.quantity && 'm' !in e.discount &&
    (e.expiration.Some? ==> 'm' !in e.expiration.value)
  }

  /** Each element of such products holds one `"name":`. */
  lemma {:induction false} ElementsCount(entries: seq<Entry>)
    requires forall i :: 0 <= i < |entries| ==> PlainValues(entries[i])
    ensures CountEach(Elements(entries), NameKey) == |entries|
  {
    if |entries| > 0 {
      var e := entries[0];
      match e.expiration {
        case Some(date) => PerishableElementCount(e.name, e.price, e.quantity, e.discount, date);
        case None => PlainElementCount(e.name, e.price, e.quantity, e.discount);
      }
      ElementsCount(entries[1..]);
      assert Elements(entries)[1..] == Elements(entries[1..]);
    }
  }

  /** `countProducts` of a built-in text is its number of products. */
  lemma BuiltInTextCount(entries: seq<Entry>)
    requires forall i :: 0 <= i < |entries| ==> PlainValues(entries[i])
    ensures Occurrences(ArrayText(Elements(entries)), NameKey, 1) == |entries|
  {
    ElementsCount(entries);
    ArrayTextCount(Elements(entries));
  }

  /** `countProducts` finds the template's ten products, and the minimal
      inventory's one. */
  lemma TemplateCount()
    ensures Occurrences(TemplateText, NameKey, 1) == 10
  {
    TemplateEntriesPlain();
    BuiltInTextCount(TemplateEntries);
  }

  /** The template's values pass the character conditions, entry by entry. */
  lemma TemplateEntriesPlain()
    ensures forall i :: 0 <= i < |TemplateEntries| ==> PlainValues(TemplateEntries[i])
  {
    TemplateEntryPlain0(); TemplateEntryPlain1(); TemplateEntryPlain2(); TemplateEntryPlain3();
    TemplateEntryPlain4(); TemplateEntryPlain5(); TemplateEntryPlain6(); TemplateEntryPlain7();
    TemplateEntryPlain8(); TemplateEntryPlain9();
  }

  lemma TemplateEntryPlain0() ensures PlainValues(TemplateEntries[0]) {}
  lemma TemplateEntryPlain1() ensures PlainValues(TemplateEntries[1]) {}
  lemma TemplateEntryPlain2() ensures PlainValues(TemplateEntries[2]) {}
  lemma TemplateEntryPlain3() ensures PlainValues(TemplateEntries[3]) {}
  lemma TemplateEntryPlain4() ensures PlainValues(TemplateEntries[4]) {}
  lemma TemplateEntryPlain5() ensures PlainValues(TemplateEntries[5]) {}
  lemma TemplateEntryPlain6() ensures PlainValues(TemplateEntries[6]) {}
  lemma TemplateEntryPlain7() ensures PlainValues(TemplateEntries[7]) {}
  lemma TemplateEntryPlain8() ensures PlainValues(TemplateEntries[8]) {}
  lemma TemplateEntryPlain9() ensures PlainValues(TemplateEntries[9]) {}

  lemma MinimalInventoryCount()
    ensures Occurrences(MinimalInventoryText, NameKey, 1) == 1
  {
    BuiltInTextCount(MinimalEntries);
  }

  // ---------------------------------------------------------------------
  // The file operations
  // ---------------------------------------------------------------------

  type TextDisk = Disk<string>

  /** A write whose `IOException` is caught and reported: on failure the
      files stay as they were. */
  function WriteOrKeep(d: TextDisk, p: Path, c: string): (r: TextDisk)
    ensures r.unreadable == d.unreadable && r.unwritable == d.unwritable
    ensures r.files == if p in d.unwritable then d.files else d.files[p := c]
  {
    match Write(d, p, c)
    case Some(d2) => d2
    case None => d
  }

  /** `createMinimalValidInventory`. */
  function WriteMinimal(d: TextDisk, u: Path): TextDisk {
    WriteOrKeep(d, u, MinimalInventoryText)
  }

  /** `fixUserInventoryFile` on the user file `u`: nothing when it is
      missing; otherwise the flags, the backup, the repaired text written
      only when it differs, and the minimal inventory when any step throws. */
  function FixUserFile(d: TextDisk, u: Path): (r: TextDisk)
    ensures r.unreadable == d.unreadable && r.unwritable == d.unwritable
    ensures u !in d.files ==> r == d
  {
    if u !in d.files then d
    else
      match Read(d, u)
      case None => WriteMinimal(d, u)
      case Some(content) =>
        var backedUp := match RepairBackupSuffix(content)
          case None => Some(d)
          case Some(suffix) => Copy(d, u, u + suffix);
        match backedUp
        case None => WriteMinimal(d, u)
        case Some(d1) =>
          var fixedContent := FixedContent(content);
          if fixedContent == content then d1
          else
            match Write(d1, u, fixedContent)
            case None => WriteMinimal(d1, u)
            case Some(d2) => d2
  }

  lemma SuffixedPathDiffers(u: Path, suffix: string)
    requires |suffix| > 0
    ensures u + suffix != u
  {
    assert |u + suffix| > |u|;
  }

  /** A file raising neither flag is left exactly as it is. */
  lemma FixLeavesCleanFile(d: TextDisk, u: Path)
    requires Read(d, u).Some? && RepairBackupSuffix(Read(d, u).value).None?
    ensures FixUserFile(d, u) == d
  {
  }

  /** When the file is readable and the writes succeed, the file ends up
      holding the repaired text and a raised flag leaves the original in the
      backup named after it. */
  lemma FixRepairsFile(d: TextDisk, u: Path)
    requires Read(d, u).Some? && u !in d.unwritable
    requires RepairBackupSuffix(Read(d, u).value).Some? ==> u + RepairBackupSuffix(Read(d, u).value).value !in d.unwritable
    ensures Read(FixUserFile(d, u), u) == Some(FixedContent(Read(d, u).value))
    ensures match RepairBackupSuffix(Read(d, u).value)
      case Some(suffix) => Read(FixUserFile(d, u), u + suffix) == (if u + suffix in d.unreadable then None else Read(d, u))
      case None => true
  {
    var content := Read(d, u).value;
    match RepairBackupSuffix(content)
    case Some(suffix) =>
      SuffixedPathDiffers(u, suffix);
    case None =>
  }

  /** An unreadable file is replaced by the minimal inventory. */
  lemma FixUnreadableFile(d: TextDisk, u: Path)
    requires u in d.files && u in d.unreadable && u !in d.unwritable
    ensures FixUserFile(d, u).files == d.files[u := MinimalInventoryText]
  {
  }

  /** A failed backup also ends in the minimal inventory: the user's products
      are replaced although none of them was touched by the repair. */
  lemma FixFailedBackupReplacesData(d: TextDisk, u: Path)
    requires Read(d, u).Some? && u !in d.unwritable
    requires RepairBackupSuffix(Read(d, u).value).Some?
    requires u + RepairBackupSuffix(Read(d, u).value).value in d.unwritable
    ensures FixUserFile(d, u).files == d.files[u := MinimalInventoryText]
  {
  }

  /** Running the repair twice on a file missing its types does what
      running it once does. */
  lemma FixMissingTypeOnce(d: TextDisk, u: Path)
    requires Read(d, u).Some? && HasMissingType(Read(d, u).value)
    requires u !in d.unwritable && u + MissingTypeSuffix !in d.unwritable
    ensures FixUserFile(FixUserFile(d, u), u) == FixUserFile(d, u)
  {
    var content := Read(d, u).value;
    var d1 := FixUserFile(d, u);
    FixRepairsFile(d, u);
    MissingTypeRepairIdempotent(content);
    var f := FixedContent(content);
    assert Read(d1, u) == Some(f);
    if f == content {
      SuffixedPathDiffers(u, MissingTypeSuffix);
      var b := u + MissingTypeSuffix;
      assert d1.files == d.files[b := content];
      assert d1.files[b := d1.files[u]] == d1.files;
    }
  }

  /** The template is missing, or readable and counted below ten products. */
  predicate NeedsTemplate(d: TextDisk, t: Path) {
    t !in d.files || (t !in d.unreadable && Occurrences(d.files[t], NameKey, 1) < 10)
  }

  /** `ensureFullTemplateExists` on the template `t`: it is written exactly
      when it is missing or has fewer than ten products, and a failure to
      read or write it changes nothing. */
  function EnsureTemplate(d: TextDisk, t: Path): (r: TextDisk)
    ensures r.unreadable == d.unreadable && r.unwritable == d.unwritable
  {
    if t in d.files then
      match Read(d, t)
      case None => d
      case Some(content) =>
        if Occurrences(content, NameKey, 1) < 10 then WriteOrKeep(d, t, TemplateText) else d
    else WriteOrKeep(d, t, TemplateText)
  }

  /** The template changes exactly when it needs rewriting and can be
      written, and then it holds the full template. */
  lemma EnsureTemplateDecision(d: TextDisk, t: Path)
    ensures EnsureTemplate(d, t) != d <==> NeedsTemplate(d, t) && t !in d.unwritable
    ensures NeedsTemplate(d, t) && t !in d.unwritable ==> EnsureTemplate(d, t).files == d.files[t := TemplateText]
    ensures !(NeedsTemplate(d, t) && t !in d.unwritable) ==> EnsureTemplate(d, t) == d
  {
    if NeedsTemplate(d, t) && t !in d.unwritable {
      assert EnsureTemplate(d, t).files[t] == TemplateText;
      if t in d.files {
        TemplateCount();
        assert d.files[t] != TemplateText;
      }
    }
  }

  /** With the template readable and writable, the check leaves a template
      of at least ten products. */
  lemma EnsureTemplateReady(d: TextDisk, t: Path)
    requires t !in d.unreadable && t !in d.unwritable
    ensures t in EnsureTemplate(d, t).files && Occurrences(EnsureTemplate(d, t).files[t], NameKey, 1) >= 10
  {
    EnsureTemplateDecision(d, t);
    TemplateCount();
  }

  /** A second check finds nothing to do. */
  lemma EnsureTemplateIdempotent(d: TextDisk, t: Path)
    ensures EnsureTemplate(EnsureTemplate(d, t), t) == EnsureTemplate(d, t)
  {
    EnsureTemplateDecision(d, t);
    var d1 := EnsureTemplate(d, t);
    EnsureTemplateDecision(d1, t);
    if NeedsTemplate(d, t) && t !in d.unwritable {
      TemplateCount();
      assert !NeedsTemplate(d1, t);
    }
  }

  /** Only the template changes. */
  lemma EnsureTemplateFrame(d: TextDisk, t: Path, q: Path)
    requires q != t
    ensures q in EnsureTemplate(d, t).files <==> q in d.files
    ensures q in d.files ==> EnsureTemplate(d, t).files[q] == d.files[q]
  {
  }

  /** The answer to the overwrite question counts as a yes. */
  predicate Confirms(answer: string) {
    StartsWith(ToLower(Trim(answer)), "y")
  }

  /** The name of the backup taken before a refresh at time `millis`. */
  function RefreshBackupPath(u: Path, millis: nat): Path {
    u + ".before-refresh-" + NatDigits(millis) + ".bak"
  }

  /** `refreshUserInventoryFromTemplate`: checks the template, asks before
      overwriting an existing file, backs it up, then copies the template
      over it (writing the template first when it is missing). Any step that
      throws ends the refresh with the files as they are at that point. */
  function Refresh(d: TextDisk, u: Path, t: Path, skipConfirmation: bool, answer: string, millis: nat): (r: TextDisk)
    ensures r.unreadable == d.unreadable && r.unwritable == d.unwritable
  {
    var d1 := EnsureTemplate(d, t);
    if u in d1.files && !skipConfirmation && !Confirms(answer) then d1
    else
      var backedUp := if u in d1.files then Copy(d1, u, RefreshBackupPath(u, millis)) else Some(d1);
      match backedUp
      case None => d1
      case Some(d2) => CopyTemplate(d2, u, t)
  }

  /** The last step of a refresh: the template copied over the user's file,
      after writing the template first when it is missing. */
  function CopyTemplate(d: TextDisk, u: Path, t: Path): (r: TextDisk)
    ensures r.unreadable == d.unreadable && r.unwritable == d.unwritable
  {
    if t in d.files then
      match Copy(d, t, u)
      case None => d
      case Some(d1) => d1
    else
      match Write(d, t, TemplateText)
      case None => d
      case Some(d1) =>
        match Copy(d1, t, u)
        case None => d1
        case Some(d2) => d2
  }

  /** Declining keeps the user's file; only the template check happened. */
  lemma RefreshDeclined(d: TextDisk, u: Path, t: Path, answer: string, millis: nat)
    requires u != t && u in d.files && !Confirms(answer)
    ensures Refresh(d, u, t, false, answer, millis) == EnsureTemplate(d, t)
    ensures Refresh(d, u, t, false, answer, millis).files[u] == d.files[u]
  {
    EnsureTemplateFrame(d, t, u);
  }

  lemma RefreshBackupPathFresh(u: Path, millis: nat)
    ensures RefreshBackupPath(u, millis) != u
  {
    assert |RefreshBackupPath(u, millis)| > |u|;
  }

  /** A refresh that goes ahead with every read and write succeeding leaves
      the user's file equal to the template, which holds at least ten
      products, and the old file in the timestamped backup. */
  lemma RefreshCopiesTemplate(d: TextDisk, u: Path, t: Path, skipConfirmation: bool, answer: string, millis: nat)
    requires u != t && RefreshBackupPath(u, millis) != t
    requires u in d.files ==> skipConfirmation || Confirms(answer)
    requires u !in d.unreadable && t !in d.unreadable
    requires u !in d.unwritable && t !in d.unwritable && RefreshBackupPath(u, millis) !in d.unwritable
    ensures var r := Refresh(d, u, t, skipConfirmation, answer, millis);
      u in r.files && t in r.files && r.files[u] == r.files[t] && Occurrences(r.files[u], NameKey, 1) >= 10
    ensures u in d.files ==>
      var r := Refresh(d, u, t, skipConfirmation, answer, millis);
      RefreshBackupPath(u, millis) in r.files && r.files[RefreshBackupPath(u, millis)] == d.files[u]
  {
    var d1 := EnsureTemplate(d, t);
    EnsureTemplateReady(d, t);
    EnsureTemplateFrame(d, t, u);
    RefreshBackupPathFresh(u, millis);
    var b := RefreshBackupPath(u, millis);
    if u in d1.files {
      var d2 := Copy(d1, u, b).value;
      var d3 := Copy(d2, t, u).value;
      assert Refresh(d, u, t, skipConfirmation, answer, millis) == d3;
    } else {
      var d3 := Copy(d1, t, u).value;
      assert Refresh(d, u, t, skipConfirmation, answer, millis) == d3;
    }
  }

  /** `createInventoryBackup`: copies the user file to `inventory.json.bak`
      when it exists; a failed copy is reported and changes nothing. */
  function Backup(d: TextDisk, u: Path): (r: TextDisk)
    ensures r.unreadable == d.unreadable && r.unwritable == d.unwritable
    ensures u !in d.files ==> r == d
  {
    if u in d.files then
      match Copy(d, u, u + BackupSuffix)
      case None => d
      case Some(d1) => d1
    else d
  }

  /** A readable file gets an identical backup and is itself left alone. */
  lemma BackupCopies(d: TextDisk, u: Path)
    requires Read(d, u).Some? && u + BackupSuffix !in d.unwritable
    ensures var r := Backup(d, u);
      r.files == d.files[u + BackupSuffix := d.files[u]] && r.files[u] == d.files[u]
  {
    SuffixedPathDiffers(u, BackupSuffix);
  }

  /** The file operations, on the file system they change. The Java class
      works on the files at fixed places under the home and project
      directories; here they are the two paths the object is made with. */
  class InventoryFileManager {
    var disk: TextDisk
    const userFile: Path
    const templateFile: Path

    constructor(d: TextDisk, u: Path, t: Path)
      ensures disk == d && userFile == u && templateFile == t
    {
      disk := d;
      userFile := u;
      templateFile := t;
    }

    method FixUserInventoryFile()
      modifies this
      ensures disk == FixUserFile(old(disk), userFile)
    {
      if !Exists(disk, userFile) {
        return;
      }
      var read := Read(disk, userFile);
      if read.None? {
        CreateMinimalValidInventory();
        return;
      }
      var content := read.value;
      var hasMissingType := HasMissingType(content);
      var hasInvalidType := HasInvalidType(content);
      if hasMissingType || hasInvalidType {
        var backupSuffix := if hasMissingType then MissingTypeSuffix else InvalidTypeSuffix;
        var copied := Copy(disk, userFile, userFile + backupSuffix);
        if copied.None? {
          CreateMinimalValidInventory();
          return;
        }
        disk := copied.value;
      }
      var fixedContent := content;
      if hasMissingType {
        fixedContent := ReplaceAll(AddMissingType, fixedContent);
      }
      if hasInvalidType {
        fixedContent := ReplaceAll(FixInvalidType, fixedContent);
      }
      if content != fixedContent {
        var written := Write(disk, userFile, fixedContent);
        if written.None? {
          CreateMinimalValidInventory();
          return;
        }
        disk := written.value;
      }
    }

    method CreateMinimalValidInventory()
      modifies this
      ensures disk == WriteMinimal(old(disk), userFile)
    {
      var written := Write(disk, userFile, MinimalInventoryText);
      if written.Some? {
        disk := written.value;
      }
    }

    method EnsureFullTemplateExists()
      modifies this
      ensures disk == EnsureTemplate(old(disk), templateFile)
    {
      if Exists(disk, templateFile) {
        var read := Read(disk, templateFile);
        if read.None? {
          return;
        }
        var productCount := CountProducts(read.value);
        if productCount < 10 {
          var _ := CreateFullTemplate();
        }
      } else {
        var _ := CreateFullTemplate();
      }
    }

    /** `createFullTemplate`, whose `IOException` its callers catch. */
    method CreateFullTemplate() returns (ok: bool)
      modifies this
      ensures ok <==> templateFile !in old(disk).unwritable
      ensures disk == WriteOrKeep(old(disk), templateFile, TemplateText)
    {
      var written := Write(disk, templateFile, TemplateText);
      ok := written.Some?;
      if ok {
        disk := written.value;
      }
    }

    method RefreshUserInventoryFromTemplate(skipConfirmation: bool, answer: string, millis: nat)
      modifies this
      ensures disk == Refresh(old(disk), userFile, templateFile, skipConfirmation, answer, millis)
    {
      EnsureFullTemplateExists();
      if Exists(disk, userFile) && !skipConfirmation {
        var response := ToLower(Trim(answer));
        if !StartsWith(response, "y") {
          return;
        }
      }
      if Exists(disk, userFile) {
        var copied := Copy(disk, userFile, RefreshBackupPath(userFile, millis));
        if copied.None? {
          return;
        }
        disk := copied.value;
      }
      assert Refresh(old(disk), userFile, templateFile, skipConfirmation, answer, millis)
          == CopyTemplate(disk, userFile, templateFile);
      if Exists(disk, templateFile) {
        var copied := Copy(disk, templateFile, userFile);
        if copied.None? {
          return;
        }
        disk := copied.value;
      } else {
        var ok := CreateFullTemplate();
        if !ok {
          return;
        }
        var copied := Copy(disk, templateFile, userFile);
        if copied.None? {
          return;
        }
        disk := copied.value;
      }
    }

    method CreateInventoryBackup()
      modifies this
      ensures disk == Backup(old(disk), userFile)
    {
      if Exists(disk, userFile) {
        var copied := Copy(disk, userFile, userFile + BackupSuffix);
        if copied.Some? {
          disk := copied.value;
        }
      }
    }
  }
}
