/** Whatever a profile makes of its names and values, a generated INSERT never passes as a read. */
module GeneratedWrites {
  import opened Bytes
  import opened LexProfiles
  import opened Tokenizer
  import opened LexTheorems
  import opened Classifier
  import opened SqlBuilders
  import opened SqlStatements

  lemma PrefixByteIsCode(p: LexProfile, s: Text, t: Text, k: nat)
    requires IsPlainText(t) && !EndsInE(t) && t <= s && k < |t|
    ensures KindAt(p, s, k) == Code
  {
    assert s[k] == t[k];
    assert k + 1 < |t| ==> s[k + 1] == t[k + 1] && IsPlainByte(t[k + 1]);
    PlainByteIsCode(p, s, k);
    assert TokenAt(p, s, k).kind == Code;
  }

  /** Bare text at the start of a statement survives stripping under every profile. */
  lemma PrefixSurvives(p: LexProfile, mark: bool, s: Text, t: Text)
    requires IsPlainText(t) && !EndsInE(t) && t <= s
    ensures t <= Strip(p, mark, s)
  {
    forall k | 0 <= k < |t|
      ensures KindAt(p, s, k) == Code
    {
      PrefixByteIsCode(p, s, t, k);
    }
    forall k | 0 <= k < |t|
      ensures Strip(p, mark, s)[k] == t[k]
    {
      CodeRun(p, s, 0, k);
      StripByte(p, mark, s, k);
      assert s[k] == t[k];
    }
  }

  /** What starts with a bare INSERT is a write, or unknown because more follows. */
  lemma InsertIsWriteOrUnknown(t: Text, marked: Text)
    requires Ascii("INSERT INTO ") <= t
    ensures ClassifyStripped(t, marked) == if HasTrailing(t) then Unknown else Write
  {
    StartsWithInsert(t);
    if !HasTrailing(t) {
      BareInsertIsWrite(t, marked);
    } else {
      InsertKeywordWrites(Upper(t));
    }
  }

  lemma InsertSqlStart(req: InsertRequest, quote: Text)
    ensures Ascii("INSERT INTO ") <= InsertSql(req, quote)
  {
  }

  lemma InsertStartIsPlain()
    ensures IsPlainText(Ascii("INSERT INTO ")) && !EndsInE(Ascii("INSERT INTO "))
  {
    var t := Ascii("INSERT INTO ");
    assert forall k | 0 <= k < |t| :: IsPlainByte(t[k]);
  }

  /** Every profile, even one that misreads a value, answers write or unknown. */
  lemma InsertIsNeverRead(p: LexProfile, req: InsertRequest, quote: Text)
    ensures ClassifyWithProfile(InsertSql(req, quote), p) ==
            if HasTrailing(Strip(p, false, InsertSql(req, quote))) then Unknown else Write
  {
    var s := InsertSql(req, quote);
    InsertSqlStart(req, quote);
    InsertStartIsPlain();
    PrefixSurvives(p, false, s, Ascii("INSERT INTO "));
    InsertIsWriteOrUnknown(Strip(p, false, s), Strip(p, true, s));
  }

  /** So no dialect and no declared syntax lets it through as a read. */
  lemma InsertNeedsApproval(req: InsertRequest, quote: Text, profiles: seq<LexProfile>)
    requires profiles != []
    ensures ClassifyWithProfiles(InsertSql(req, quote), profiles) != Select
  {
    InsertIsNeverRead(profiles[0], req, quote);
  }
}
