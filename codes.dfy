/** Download codes (src/Model/DLCode.php): the redeemability rule, the usage counter, the
    redemption of a code, the case-insensitive uniqueness rule, the lookup of a code typed
    in by a visitor, and random generation of new unique codes.

    The two database tables the code works on are fields of one `Registry` object: a
    sequence of code records and a sequence of redemption records, "first" meaning first
    in sequence order. Record fields the source assigns are updated in place through the
    registry's methods. */
module Codes {
  import opened Common
  import opened Text
  import opened Encoding
  import opened Redemptions

  /** Defaults of the configuration settings. */
  const DefaultUsageLimit: int := 5
  const DefaultCaseSensitive: bool := true
  const DefaultStripWhitespace: bool := false
  const DefaultLength: int := 8
  const DefaultChars: string := "ABCDEFGHIJAKLMNOPQRSTUVWXYZ0123456789"
  /** `autoGenerate` gives up once its try counter exceeds this, so it draws at most
      `MaxTries + 1` candidates. */
  const MaxTries: nat := 10

  /** The settings `usage_limit`, `case_sensitive`, `strip_whitespace`,
      `autogenerate_length`, `autogenerate_chars`, and the redemption's `validity_days`. */
  datatype Config = Config(usageLimit: int, caseSensitive: bool, stripWhitespace: bool,
                           length: int, chars: string, validityDays: int)

  const DefaultConfig: Config :=
    Config(DefaultUsageLimit, DefaultCaseSensitive, DefaultStripWhitespace, DefaultLength, DefaultChars, DefaultValidityDays)

  /** A code record. `id` is 0 until the record is written; `expires` is absent for a code
      without an end date. */
  datatype Code = Code(id: nat, code: string, expires: Option<int>, active: bool, limited: bool,
                       usageCount: int, distributed: bool, note: string, packageId: int)

  /** Properties a caller may pass when creating a code. */
  datatype CodeArgs = CodeArgs(limited: bool, expires: Option<int>, packageId: int, note: string)

  /** No properties given: the record defaults apply. */
  const NoArgs: CodeArgs := CodeArgs(true, None, 0, "")

  /** Failures that abort a write or a generation. */
  datatype CodeError =
    | RetriesExhausted   // no unique candidate among MaxTries + 1 draws
    | EmptyAlphabet      // random_int(0, -1) on an empty character set
    | DuplicateCode      // validation refused the write

  /** A new, unwritten code record with the defaults: active, unused, not distributed. */
  function NewCode(code: string, args: CodeArgs): (c: Code)
    ensures c.id == 0 && c.code == code
    ensures c.active && c.usageCount == 0 && !c.distributed
    ensures c.limited == args.limited && c.expires == args.expires
    ensures c.packageId == args.packageId && c.note == args.note
  {
    Code(0, code, args.expires, true, args.limited, 0, false, args.note, args.packageId)
  }

  // ---------------------------------------------------------------- redeemability

  /** Active, below the usage limit unless unlimited, and not past its end date. */
  predicate IsRedeemable(c: Code, limit: int, now: int)
  {
    c.active
    && (c.usageCount < limit || !c.limited)
    && (c.expires.None? || c.expires.value > now)
  }

  /** Each condition alone blocks redemption; an unlimited code ignores the counter. */
  lemma RedeemableCases(c: Code, limit: int, now: int)
    ensures !c.active ==> !IsRedeemable(c, limit, now)
    ensures c.expires.Some? && c.expires.value <= now ==> !IsRedeemable(c, limit, now)
    ensures c.limited && c.usageCount >= limit ==> !IsRedeemable(c, limit, now)
    ensures c.active && !c.limited && (c.expires.None? || c.expires.value > now) ==> IsRedeemable(c, limit, now)
  {
  }

  /** The record after `increaseUsageCount`: one more use; a limited code that reaches the
      limit is deactivated. */
  function Increased(c: Code, limit: int): (r: Code)
    ensures r.usageCount == c.usageCount + 1
    ensures r.active ==> c.active
    ensures c.active && !r.active <==> c.active && c.limited && r.usageCount >= limit
    ensures r.(usageCount := c.usageCount, active := c.active) == c
  {
    var n := c.usageCount + 1;
    c.(usageCount := n, active := if c.limited && n >= limit then false else c.active)
  }

  /** Using a limited code for the last allowed time leaves it inactive at the limit and no
      longer redeemable. */
  lemma LastUseDeactivates(c: Code, limit: int, now: int)
    requires c.limited && c.usageCount == limit - 1 && IsRedeemable(c, limit, now)
    ensures !Increased(c, limit).active && Increased(c, limit).usageCount == limit
    ensures !IsRedeemable(Increased(c, limit), limit, now)
  {
  }

  /** How many of `k` successive redemption attempts at time `now` succeed. */
  function Successes(c: Code, limit: int, now: int, k: nat): (n: nat)
    ensures n <= k
    decreases k
  {
    if k == 0 then 0
    else if IsRedeemable(c, limit, now) then 1 + Successes(Increased(c, limit), limit, now, k - 1)
    else Successes(c, limit, now, k - 1)
  }

  /** A limited code is redeemed at most `limit - usageCount` more times. */
  lemma {:induction false} LimitedSuccessesBound(c: Code, limit: int, now: int, k: nat)
    requires c.limited
    ensures Successes(c, limit, now, k) <= if limit > c.usageCount then limit - c.usageCount else 0
    decreases k
  {
    if k > 0 {
      if IsRedeemable(c, limit, now) {
        LimitedSuccessesBound(Increased(c, limit), limit, now, k - 1);
      } else {
        LimitedSuccessesBound(c, limit, now, k - 1);
      }
    }
  }

  /** An active unlimited code before its end date succeeds on every attempt. */
  lemma {:induction false} UnlimitedAlwaysSucceeds(c: Code, limit: int, now: int, k: nat)
    requires !c.limited && c.active && (c.expires.None? || c.expires.value > now)
    ensures Successes(c, limit, now, k) == k
    decreases k
  {
    if k > 0 {
      UnlimitedAlwaysSucceeds(Increased(c, limit), limit, now, k - 1);
    }
  }

  // ---------------------------------------------------------------- uniqueness

  /** Some stored record carries `s` up to letter case (the `Code:nocase` filter's
      `exists()`), scanning from the last record back. */
  predicate CodeTaken(s: string, codes: seq<Code>)
    decreases |codes|
  {
    |codes| > 0 && (EqualsNoCase(codes[|codes| - 1].code, s) || CodeTaken(s, codes[..|codes| - 1]))
  }

  /** The scan finds exactly the codes some record carries up to letter case. */
  lemma {:induction false} CodeTakenIff(s: string, codes: seq<Code>)
    ensures CodeTaken(s, codes) <==> exists j :: 0 <= j < |codes| && EqualsNoCase(codes[j].code, s)
    decreases |codes|
  {
    if |codes| > 0 {
      var init := codes[..|codes| - 1];
      CodeTakenIff(s, init);
      if CodeTaken(s, init) {
        var j :| 0 <= j < |init| && EqualsNoCase(init[j].code, s);
        assert codes[j] == init[j];
      }
      if exists j :: 0 <= j < |codes| && EqualsNoCase(codes[j].code, s) {
        var j :| 0 <= j < |codes| && EqualsNoCase(codes[j].code, s);
        if j < |init| {
          assert init[j] == codes[j];
        }
      }
    }
  }

  /** No two stored records carry the same code up to letter case. */
  predicate UniqueNoCase(codes: seq<Code>)
  {
    forall i, j :: 0 <= i < j < |codes| ==> !EqualsNoCase(codes[i].code, codes[j].code)
  }

  /** `validate`: the record may be written unless another record carries the same code up
      to letter case; a written record (non-zero ID) does not conflict with itself. */
  predicate Validate(c: Code, codes: seq<Code>)
  {
    !exists j :: 0 <= j < |codes| && EqualsNoCase(codes[j].code, c.code) && (c.id == 0 || codes[j].id != c.id)
  }

  /** A new record passes validation exactly when its code is not taken. */
  lemma ValidateNew(c: Code, codes: seq<Code>)
    requires c.id == 0
    ensures Validate(c, codes) <==> !CodeTaken(c.code, codes)
  {
    CodeTakenIff(c.code, codes);
  }

  /** In a store without case-insensitive duplicates and with distinct IDs, every stored
      record passes its own validation. */
  lemma ValidateStored(codes: seq<Code>, k: nat)
    requires UniqueNoCase(codes) && k < |codes| && codes[k].id != 0
    requires forall i, j :: 0 <= i < j < |codes| ==> codes[i].id != codes[j].id
    ensures Validate(codes[k], codes)
  {
  }

  /** Validation is case-insensitive: with "abc" stored, "abc1234" passes while "abc" and
      "aBC" are refused. */
  lemma ValidateExample(stored: Code)
    requires stored.code == "abc"
    ensures Validate(NewCode("abc1234", NoArgs), [stored])
    ensures !Validate(NewCode("abc", NoArgs), [stored])
    ensures !Validate(NewCode("aBC", NoArgs), [stored])
  {
    assert EqualsNoCase([stored][0].code, "abc");
    assert EqualsNoCase([stored][0].code, "aBC");
    assert !EqualsNoCase([stored][0].code, "abc1234");
  }

  // ---------------------------------------------------------------- lookup

  /** The visitor's input after the optional `trim`. */
  function NormalizedInput(input: string, stripWhitespace: bool): string
  {
    if stripWhitespace then Trim(input) else input
  }

  /** The stored code equals the input, exactly or up to letter case. */
  predicate InputMatches(stored: string, input: string, caseSensitive: bool)
  {
    if caseSensitive then stored == input else EqualsNoCase(stored, input)
  }

  predicate ActiveMatch(c: Code, key: string, caseSensitive: bool)
  {
    c.active && InputMatches(c.code, key, caseSensitive)
  }

  /** `get_redeemable_code`: the first active record whose code matches the (optionally
      trimmed) input, provided it is redeemable; otherwise nothing. */
  function FindRedeemable(codes: seq<Code>, input: string, cfg: Config, now: int): (r: Option<nat>)
    ensures r.Some? ==>
      && r.value < |codes|
      && ActiveMatch(codes[r.value], NormalizedInput(input, cfg.stripWhitespace), cfg.caseSensitive)
      && IsRedeemable(codes[r.value], cfg.usageLimit, now)
    ensures r.Some? ==> forall j :: 0 <= j < r.value ==>
      !ActiveMatch(codes[j], NormalizedInput(input, cfg.stripWhitespace), cfg.caseSensitive)
    ensures (forall j :: 0 <= j < |codes| ==>
      !ActiveMatch(codes[j], NormalizedInput(input, cfg.stripWhitespace), cfg.caseSensitive)) ==> r.None?
  {
    var key := NormalizedInput(input, cfg.stripWhitespace);
    match FirstIndex(codes, (c: Code) => ActiveMatch(c, key, cfg.caseSensitive))
    case None => None
    case Some(k) => if IsRedeemable(codes[k], cfg.usageLimit, now) then Some(k) else None
  }

  /** In a store without case-insensitive duplicates, an active, redeemable record matching
      the input is the one found. */
  lemma FindRedeemableComplete(codes: seq<Code>, input: string, cfg: Config, now: int, k: nat)
    requires UniqueNoCase(codes) && k < |codes|
    requires ActiveMatch(codes[k], NormalizedInput(input, cfg.stripWhitespace), cfg.caseSensitive)
    requires IsRedeemable(codes[k], cfg.usageLimit, now)
    ensures FindRedeemable(codes, input, cfg, now) == Some(k)
  {
    var key := NormalizedInput(input, cfg.stripWhitespace);
    var f := FirstIndex(codes, (c: Code) => ActiveMatch(c, key, cfg.caseSensitive));
    assert f.Some?;
    var j := f.value;
    if j != k {
      assert false;
    }
  }

  /** Switching the lookup to case-insensitive loses no code: in a store without
      case-insensitive duplicates, the record a case-sensitive lookup finds is also the one
      found case-insensitively. */
  lemma CaseSensitiveFoundNoCase(codes: seq<Code>, input: string, cfg: Config, now: int)
    requires UniqueNoCase(codes) && cfg.caseSensitive
    requires FindRedeemable(codes, input, cfg, now).Some?
    ensures FindRedeemable(codes, input, cfg.(caseSensitive := false), now) == FindRedeemable(codes, input, cfg, now)
  {
    var k := FindRedeemable(codes, input, cfg, now).value;
    FindRedeemableComplete(codes, input, cfg.(caseSensitive := false), now, k);
  }

  /** The stored code "VALIDCODE" is found for the input "VALIDCODE", and for the input
      "vAlIDcoDE" exactly when the lookup is case-insensitive. */
  lemma LookupCaseExample(c: Code, cfg: Config, now: int)
    requires c.code == "VALIDCODE" && IsRedeemable(c, cfg.usageLimit, now) && !cfg.stripWhitespace
    ensures FindRedeemable([c], "VALIDCODE", cfg, now) == Some(0)
    ensures FindRedeemable([c], "vAlIDcoDE", cfg, now) == if cfg.caseSensitive then None else Some(0)
  {
    FindSingle(c, "VALIDCODE", cfg, now);
    ValidCodeNoCase();
    assert InputMatches(c.code, "vAlIDcoDE", cfg.caseSensitive) <==> !cfg.caseSensitive;
    FindSingle(c, "vAlIDcoDE", cfg, now);
  }

  lemma ValidCodeNoCase()
    ensures EqualsNoCase("VALIDCODE", "vAlIDcoDE")
  {
  }

  /** With "FREE" stored, the input "   FREE  " is found only when whitespace is stripped. */
  lemma LookupWhitespaceExample(c: Code, now: int)
    requires c.code == "FREE" && IsRedeemable(c, DefaultUsageLimit, now)
    ensures FindRedeemable([c], "   FREE  ", DefaultConfig, now) == None
    ensures FindRedeemable([c], "   FREE  ", DefaultConfig.(stripWhitespace := true), now) == Some(0)
  {
    assert "   FREE  " == "   " + "FREE" + "  ";
    TrimRemovesPadding("   ", "FREE", "  ");
    assert "   FREE  " != "FREE";
    FindSingle(c, "   FREE  ", DefaultConfig, now);
    FindSingle(c, "   FREE  ", DefaultConfig.(stripWhitespace := true), now);
  }

  /** Lookup in a store holding one record: found exactly when it is active, matches and is
      redeemable. */
  lemma FindSingle(c: Code, input: string, cfg: Config, now: int)
    ensures FindRedeemable([c], input, cfg, now)
         == if ActiveMatch(c, NormalizedInput(input, cfg.stripWhitespace), cfg.caseSensitive)
               && IsRedeemable(c, cfg.usageLimit, now) then Some(0) else None
  {
    if ActiveMatch(c, NormalizedInput(input, cfg.stripWhitespace), cfg.caseSensitive)
       && IsRedeemable(c, cfg.usageLimit, now) {
      FindRedeemableComplete([c], input, cfg, now, 0);
    }
  }

  // ---------------------------------------------------------------- generation

  /** The number of characters a generated code has: the configured length, or none when
      that is not positive. */
  function CodeLength(length: int): (n: nat)
    ensures length > 0 ==> n == length
    ensures length <= 0 ==> n == 0
  {
    if length > 0 then length else 0
  }

  /** `random_int` can supply the draws: nothing is drawn, or there is a character to draw. */
  predicate Drawable(chars: string, length: int)
  {
    CodeLength(length) == 0 || |chars| > 0
  }

  /** The first `n` draws are valid positions in an alphabet of `m` characters. */
  predicate DrawsFit(draws: seq<int>, m: nat, n: nat)
  {
    |draws| >= n && forall i :: 0 <= i < n ==> 0 <= draws[i] < m
  }

  /** The code the draws spell: character `draws[i]` of the alphabet at position `i`. */
  function CodeFromDraws(chars: string, draws: seq<int>, n: nat): (c: string)
    requires DrawsFit(draws, |chars|, n)
    ensures |c| == n
    ensures forall i :: 0 <= i < n ==> c[i] == chars[draws[i]]
  {
    seq(n, i requires 0 <= i < n && DrawsFit(draws, |chars|, n) => chars[draws[i]])
  }

  /** A generated code uses only characters of the configured alphabet. */
  lemma CodeFromDrawsAlphabet(chars: string, draws: seq<int>, n: nat)
    requires DrawsFit(draws, |chars|, n)
    ensures forall i :: 0 <= i < n ==> CodeFromDraws(chars, draws, n)[i] in chars
  {
  }

  /** `randomCode`: one character per position, picked by the next draw; an empty alphabet
      with a positive length fails like `random_int(0, -1)`. */
  method RandomCode(chars: string, length: int, draws: seq<int>) returns (res: Result<string, CodeError>)
    requires Drawable(chars, length) ==> DrawsFit(draws, |chars|, CodeLength(length))
    ensures res.Err? <==> !Drawable(chars, length)
    ensures res.Err? ==> res.error == EmptyAlphabet
    ensures res.Ok? ==> res.value == CodeFromDraws(chars, draws, CodeLength(length))
  {
    var n := CodeLength(length);
    var c := "";
    for i := 0 to n
      invariant i > 0 ==> |chars| > 0
      invariant i > 0 ==> c == CodeFromDraws(chars, draws, i)
      invariant i == 0 ==> c == []
    {
      if |chars| == 0 {
        return Err(EmptyAlphabet);
      }
      c := c + [chars[draws[i]]];
    }
    return Ok(c);
  }

  /** The draws of every candidate `autoGenerate` may need are usable. */
  predicate CandidateDraws(cfg: Config, draws: seq<seq<int>>)
  {
    |draws| > MaxTries
    && (Drawable(cfg.chars, cfg.length) ==>
          forall t :: 0 <= t < |draws| ==> DrawsFit(draws[t], |cfg.chars|, CodeLength(cfg.length)))
  }

  function Candidate(cfg: Config, draws: seq<seq<int>>, t: nat): string
    requires CandidateDraws(cfg, draws) && Drawable(cfg.chars, cfg.length) && t < |draws|
  {
    CodeFromDraws(cfg.chars, draws[t], CodeLength(cfg.length))
  }

  /** Index of the first of candidates `from`..`MaxTries` whose code is not taken. */
  function FirstFree(cfg: Config, draws: seq<seq<int>>, codes: seq<Code>, from: nat): (r: Option<nat>)
    requires CandidateDraws(cfg, draws) && Drawable(cfg.chars, cfg.length)
    requires from <= MaxTries + 1
    ensures r.Some? ==> from <= r.value <= MaxTries && !CodeTaken(Candidate(cfg, draws, r.value), codes)
    ensures r.Some? ==> forall u :: from <= u < r.value ==> CodeTaken(Candidate(cfg, draws, u), codes)
    ensures r.None? ==> forall u :: from <= u <= MaxTries ==> CodeTaken(Candidate(cfg, draws, u), codes)
    decreases MaxTries + 1 - from
  {
    if from > MaxTries then None
    else if !CodeTaken(Candidate(cfg, draws, from), codes) then Some(from)
    else FirstFree(cfg, draws, codes, from + 1)
  }

  lemma FirstFreeAt(cfg: Config, draws: seq<seq<int>>, codes: seq<Code>, t: nat)
    requires CandidateDraws(cfg, draws) && Drawable(cfg.chars, cfg.length) && t <= MaxTries
    requires forall u :: 0 <= u < t ==> CodeTaken(Candidate(cfg, draws, u), codes)
    requires !CodeTaken(Candidate(cfg, draws, t), codes)
    ensures FirstFree(cfg, draws, codes, 0) == Some(t)
  {
  }

  lemma FirstFreeNone(cfg: Config, draws: seq<seq<int>>, codes: seq<Code>)
    requires CandidateDraws(cfg, draws) && Drawable(cfg.chars, cfg.length)
    requires forall u :: 0 <= u <= MaxTries ==> CodeTaken(Candidate(cfg, draws, u), codes)
    ensures FirstFree(cfg, draws, codes, 0).None?
  {
  }

  /** The database tables of codes and redemptions, with the next IDs the ORM assigns. */
  class Registry {
    var codes: seq<Code>
    var redemptions: seq<Redemption>
    var nextCodeId: nat
    var nextRedemptionId: nat

    /** Written records have positive, distinct IDs below the next ID, and no two codes are
        equal up to letter case (the unique index plus `validate`). */
    ghost predicate Valid()
      reads this
    {
      0 < nextCodeId && 0 < nextRedemptionId
      && (forall i :: 0 <= i < |codes| ==> 0 < codes[i].id < nextCodeId)
      && (forall i, j :: 0 <= i < j < |codes| ==> codes[i].id != codes[j].id)
      && UniqueNoCase(codes)
      && (forall i :: 0 <= i < |redemptions| ==> 0 < redemptions[i].id < nextRedemptionId)
      && DistinctIds(redemptions)
    }

    /** IDs of the stored codes, against which a redemption's code is checked. */
    function CodeIds(): set<nat>
      reads this
    {
      set i | 0 <= i < |codes| :: codes[i].id
    }

    constructor ()
      ensures Valid()
      ensures codes == [] && redemptions == []
    {
      codes := [];
      redemptions := [];
      nextCodeId := 1;
      nextRedemptionId := 1;
    }

    /** `write` of a new code record: validation first, then the record is stored under the
        next ID. */
    method Insert(c: Code) returns (res: Result<Code, CodeError>)
      requires Valid() && c.id == 0
      modifies this
      ensures Valid()
      ensures redemptions == old(redemptions) && nextRedemptionId == old(nextRedemptionId)
      ensures res.Err? <==> CodeTaken(c.code, old(codes))
      ensures res.Err? ==> res.error == DuplicateCode && codes == old(codes) && nextCodeId == old(nextCodeId)
      ensures res.Ok? ==> res.value == c.(id := old(nextCodeId))
      ensures res.Ok? ==> codes == old(codes) + [res.value] && nextCodeId == old(nextCodeId) + 1
    {
      ValidateNew(c, codes);
      if !Validate(c, codes) {
        return Err(DuplicateCode);
      }
      var stored := c.(id := nextCodeId);
      codes := codes + [stored];
      nextCodeId := nextCodeId + 1;
      res := Ok(stored);
    }

    /** `increaseUsageCount` on the stored record `k`. */
    method IncreaseUsageCount(k: nat, limit: int)
      requires Valid() && k < |codes|
      modifies this
      ensures Valid()
      ensures codes == old(codes)[k := Increased(old(codes[k]), limit)]
      ensures redemptions == old(redemptions)
      ensures nextCodeId == old(nextCodeId) && nextRedemptionId == old(nextRedemptionId)
    {
      codes := codes[k := Increased(codes[k], limit)];
      assert forall i :: 0 <= i < |codes| ==> codes[i].code == old(codes)[i].code && codes[i].id == old(codes)[i].id;
    }

    /** `redeem` on the stored record `k`. A code that is not redeemable yields nothing and
        nothing changes. Otherwise its usage is counted; a limited code reuses its first
        redemption when it has one, every other case stores a fresh redemption made from
        `random` at `now`. */
    method Redeem(k: nat, cfg: Config, now: int, random: seq<Byte>) returns (res: Option<Redemption>)
      requires Valid() && k < |codes| && |random| == SecretBytes
      modifies this
      ensures Valid()
      ensures nextCodeId == old(nextCodeId)
      ensures !IsRedeemable(old(codes[k]), cfg.usageLimit, now) ==>
        res.None? && codes == old(codes) && redemptions == old(redemptions)
        && nextRedemptionId == old(nextRedemptionId)
      ensures IsRedeemable(old(codes[k]), cfg.usageLimit, now) ==>
        res.Some? && codes == old(codes)[k := Increased(old(codes[k]), cfg.usageLimit)]
        && res.value.codeId == old(codes[k]).id
      ensures res.Some? ==> res.value in redemptions
      ensures res.Some? && res.value !in old(redemptions) ==> res.value.expires == now + SecondsPerDay * cfg.validityDays
      ensures (IsRedeemable(old(codes[k]), cfg.usageLimit, now) && old(codes[k]).limited
               && FirstRedemptionOf(old(redemptions), old(codes[k]).id).Some?) ==>
        res == Some(old(redemptions)[FirstRedemptionOf(old(redemptions), old(codes[k]).id).value])
        && redemptions == old(redemptions) && nextRedemptionId == old(nextRedemptionId)
      ensures (IsRedeemable(old(codes[k]), cfg.usageLimit, now)
               && (!old(codes[k]).limited || FirstRedemptionOf(old(redemptions), old(codes[k]).id).None?)) ==>
        res == Some(PopulateDefaults(old(nextRedemptionId), old(codes[k]).id, random, now, cfg.validityDays))
        && redemptions == old(redemptions) + [res.value] && nextRedemptionId == old(nextRedemptionId) + 1
    {
      if !IsRedeemable(codes[k], cfg.usageLimit, now) {
        return None;
      }
      IncreaseUsageCount(k, cfg.usageLimit);
      var codeId := codes[k].id;
      if codes[k].limited {
        var first := FirstRedemptionOf(redemptions, codeId);
        if first.Some? {
          return Some(redemptions[first.value]);
        }
      }
      var r := PopulateDefaults(nextRedemptionId, codeId, random, now, cfg.validityDays);
      redemptions := redemptions + [r];
      nextRedemptionId := nextRedemptionId + 1;
      res := Some(r);
    }

    /** The drawing loop of `autoGenerate`: candidate `t` is spelled by `draws[t]`; the first
        one not taken up to letter case is returned, and once the try counter exceeds
        `MaxTries` the generation fails. Nothing is written. */
    method DrawUniqueCode(cfg: Config, draws: seq<seq<int>>) returns (res: Result<string, CodeError>)
      requires CandidateDraws(cfg, draws)
      ensures !Drawable(cfg.chars, cfg.length) ==> res == Err(EmptyAlphabet)
      ensures Drawable(cfg.chars, cfg.length) ==>
        && (res.Err? <==> FirstFree(cfg, draws, codes, 0).None?)
        && (res.Err? ==> res.error == RetriesExhausted)
        && (res.Ok? ==> res.value == Candidate(cfg, draws, FirstFree(cfg, draws, codes, 0).value))
      ensures res.Ok? ==> !CodeTaken(res.value, codes)
    {
      var tries: nat := 0;
      while true
        invariant tries <= MaxTries + 1
        invariant tries > 0 ==> Drawable(cfg.chars, cfg.length)
        invariant Drawable(cfg.chars, cfg.length) ==>
          forall u :: 0 <= u < tries ==> CodeTaken(Candidate(cfg, draws, u), codes)
        decreases MaxTries + 1 - tries
      {
        if tries > MaxTries {
          FirstFreeNone(cfg, draws, codes);
          return Err(RetriesExhausted);
        }
        var drawn := RandomCode(cfg.chars, cfg.length, draws[tries]);
        if drawn.Err? {
          return Err(drawn.error);
        }
        assert drawn.value == Candidate(cfg, draws, tries);
        tries := tries + 1;
        if !CodeTaken(drawn.value, codes) {
          FirstFreeAt(cfg, draws, codes, tries - 1);
          return Ok(drawn.value);
        }
      }
    }

    /** `autoGenerate`: a record with the defaults, `args` and a freshly drawn unique code,
        stored under the next ID when `doWrite` is set. */
    method AutoGenerate(args: CodeArgs, doWrite: bool, cfg: Config, draws: seq<seq<int>>)
      returns (res: Result<Code, CodeError>)
      requires Valid() && CandidateDraws(cfg, draws)
      modifies this
      ensures Valid()
      ensures redemptions == old(redemptions) && nextRedemptionId == old(nextRedemptionId)
      ensures !Drawable(cfg.chars, cfg.length) ==> res == Err(EmptyAlphabet)
      ensures Drawable(cfg.chars, cfg.length) ==>
        && (res.Err? <==> FirstFree(cfg, draws, old(codes), 0).None?)
        && (res.Err? ==> res.error == RetriesExhausted)
        && (res.Ok? ==> res.value.code == Candidate(cfg, draws, FirstFree(cfg, draws, old(codes), 0).value))
      ensures res.Ok? ==>
        && !CodeTaken(res.value.code, old(codes))
        && res.value == NewCode(res.value.code, args).(id := res.value.id)
      ensures res.Err? || !doWrite ==> codes == old(codes) && nextCodeId == old(nextCodeId)
      ensures res.Ok? && !doWrite ==> res.value.id == 0
      ensures res.Ok? && doWrite ==>
        res.value.id == old(nextCodeId) && codes == old(codes) + [res.value] && nextCodeId == old(nextCodeId) + 1
    {
      var drawn := DrawUniqueCode(cfg, draws);
      if drawn.Err? {
        return Err(drawn.error);
      }
      var c := NewCode(drawn.value, args);
      if doWrite {
        res := Insert(c);
      } else {
        res := Ok(c);
      }
    }
  }

  /** Position of a code's first redemption in the redemption table. */
  function FirstRedemptionOf(rs: seq<Redemption>, codeId: nat): (r: Option<nat>)
    ensures r.Some? ==> r.value < |rs| && rs[r.value].codeId == codeId
    ensures r.Some? ==> forall j :: 0 <= j < r.value ==> rs[j].codeId != codeId
    ensures r.None? ==> forall j :: 0 <= j < |rs| ==> rs[j].codeId != codeId
  {
    FirstIndex(rs, (r: Redemption) => r.codeId == codeId)
  }

  /** A limited code one use short of its limit: the first `redeem` succeeds and leaves the
      code inactive at the limit, the second yields nothing. */
  method LastUseScenario(reg: Registry, k: nat, cfg: Config, now: int, random1: seq<Byte>, random2: seq<Byte>)
    returns (first: Option<Redemption>, second: Option<Redemption>)
    requires reg.Valid() && k < |reg.codes| && |random1| == SecretBytes && |random2| == SecretBytes
    requires reg.codes[k].limited && reg.codes[k].usageCount == cfg.usageLimit - 1
    requires IsRedeemable(reg.codes[k], cfg.usageLimit, now)
    modifies reg
    ensures first.Some? && second.None?
    ensures |reg.codes| == old(|reg.codes|)
    ensures !reg.codes[k].active && reg.codes[k].usageCount == cfg.usageLimit
  {
    first := reg.Redeem(k, cfg, now, random1);
    LastUseDeactivates(old(reg.codes[k]), cfg.usageLimit, now);
    second := reg.Redeem(k, cfg, now, random2);
  }
}
