/** The bulk generation action of the code administration (src/Controller/DLCodeAdmin.php):
    create `Quantity` new codes for a package in one go. */
module Admin {
  import opened Common
  import opened Codes

  /** The submitted generation form. */
  datatype GenerateData = GenerateData(quantity: int, packageId: int, limited: bool,
                                       expires: Option<int>, note: string)

  /** The properties every generated code receives from the form. */
  function FormArgs(data: GenerateData): CodeArgs
  {
    CodeArgs(data.limited, data.expires, data.packageId, data.note)
  }

  /** Codes are generated only for a positive quantity and a chosen package. */
  predicate ShouldGenerate(data: GenerateData)
  {
    data.quantity > 0 && data.packageId > 0
  }

  /** A record exactly as `autoGenerate` creates it from `args`. */
  predicate IsGenerated(c: Code, args: CodeArgs)
  {
    c == NewCode(c.code, args).(id := c.id)
  }

  /** The codes, the next code ID and the failure, if any, after some `autoGenerate` calls. */
  datatype GenState = GenState(codes: seq<Code>, nextId: nat, failure: Option<CodeError>)

  /** The outcome of `autoGenerate`'s search over the candidates of `d`: the first candidate
      not taken up to letter case, if any. */
  function SearchResult(cfg: Config, d: seq<seq<int>>, codes: seq<Code>): (r: Option<string>)
    ensures r.Some? ==> !CodeTaken(r.value, codes) && |r.value| == CodeLength(cfg.length)
    ensures CandidateDraws(cfg, d) && Drawable(cfg.chars, cfg.length) ==>
      (r.None? <==> FirstFree(cfg, d, codes, 0).None?)
  {
    if !(CandidateDraws(cfg, d) && Drawable(cfg.chars, cfg.length)) then None
    else match FirstFree(cfg, d, codes, 0)
      case None => None
      case Some(t) => Some(Candidate(cfg, d, t))
  }

  /** One `autoGenerate` call with writing whose search came out as `pick`: it fails on an
      empty alphabet or when no candidate was free, and otherwise stores a record with the
      defaults, `args` and the picked code under the next ID. */
  function GenerateStep(cfg: Config, args: CodeArgs, s: GenState, pick: Option<string>): (r: GenState)
    ensures r.failure.None? <==> Drawable(cfg.chars, cfg.length) && pick.Some?
    ensures r.failure.None? ==> |r.codes| == |s.codes| + 1 && r.codes[..|s.codes|] == s.codes && r.nextId == s.nextId + 1
    ensures r.failure.None? ==> r.codes[|s.codes|] == NewCode(pick.value, args).(id := s.nextId)
    ensures r.failure.Some? ==> r.codes == s.codes && r.nextId == s.nextId
    ensures !Drawable(cfg.chars, cfg.length) ==> r.failure == Some(EmptyAlphabet)
    ensures r.failure == Some(RetriesExhausted) ==> Drawable(cfg.chars, cfg.length) && pick.None?
  {
    if !Drawable(cfg.chars, cfg.length) then s.(failure := Some(EmptyAlphabet))
    else match pick
      case None => s.(failure := Some(RetriesExhausted))
      case Some(c) =>
        var code := NewCode(c, args).(id := s.nextId);
        assert (s.codes + [code])[..|s.codes|] == s.codes;
        GenState(s.codes + [code], s.nextId + 1, None)
  }

  /** The state after the first `i` calls of `generate`'s loop, started from `s0`, call `k`
      picking `picks[k]`; the loop ends at the first failure. */
  function Run(cfg: Config, args: CodeArgs, picks: seq<Option<string>>, s0: GenState, i: nat): GenState
    requires i <= |picks|
    decreases i
  {
    if i == 0 then s0
    else
      var s := Run(cfg, args, picks, s0, i - 1);
      if s.failure.Some? then s else GenerateStep(cfg, args, s, picks[i - 1])
  }

  /** Pick `k` is what `autoGenerate`'s search over `draws[k]` returns against the codes
      stored before call `k`. */
  predicate PickIsFirstFree(cfg: Config, args: CodeArgs, draws: seq<seq<seq<int>>>,
                            picks: seq<Option<string>>, s0: GenState, k: nat)
    requires k < |picks| <= |draws|
  {
    picks[k] == SearchResult(cfg, draws[k], Run(cfg, args, picks, s0, k).codes)
  }

  /** Every recorded pick is the true search result of its call. */
  predicate PicksFirstFree(cfg: Config, args: CodeArgs, draws: seq<seq<seq<int>>>,
                           picks: seq<Option<string>>, s0: GenState)
    requires |picks| <= |draws|
  {
    Drawable(cfg.chars, cfg.length) ==>
      forall k :: 0 <= k < |picks| ==> PickIsFirstFree(cfg, args, draws, picks, s0, k)
  }

  /** Later picks do not change the state after earlier calls. */
  lemma {:induction false} RunPrefix(cfg: Config, args: CodeArgs, picks: seq<Option<string>>,
                                     more: seq<Option<string>>, s0: GenState, i: nat)
    requires i <= |picks|
    ensures Run(cfg, args, picks + more, s0, i) == Run(cfg, args, picks, s0, i)
    decreases i
  {
    if i > 0 {
      assert (picks + more)[i - 1] == picks[i - 1];
      RunPrefix(cfg, args, picks, more, s0, i - 1);
    }
  }

  /** Once a call has failed, later iterations change nothing. */
  lemma {:induction false} RunStaysFailed(cfg: Config, args: CodeArgs, picks: seq<Option<string>>,
                                          s0: GenState, i: nat, k: nat)
    requires i <= k <= |picks|
    requires Run(cfg, args, picks, s0, i).failure.Some?
    ensures Run(cfg, args, picks, s0, k) == Run(cfg, args, picks, s0, i)
    decreases k
  {
    if k > i {
      RunStaysFailed(cfg, args, picks, s0, i, k - 1);
    }
  }

  /** Codes are only ever added: the starting codes stay as a prefix, a run without failure
      adds exactly one code per call, and a failed one fewer than it made calls. */
  lemma {:induction false} RunExtends(cfg: Config, args: CodeArgs, picks: seq<Option<string>>,
                                      s0: GenState, i: nat)
    requires s0.failure.None? && i <= |picks|
    ensures |s0.codes| <= |Run(cfg, args, picks, s0, i).codes| <= |s0.codes| + i
    ensures Run(cfg, args, picks, s0, i).codes[..|s0.codes|] == s0.codes
    ensures Run(cfg, args, picks, s0, i).failure.None? ==>
      |Run(cfg, args, picks, s0, i).codes| == |s0.codes| + i
    ensures Run(cfg, args, picks, s0, i).failure.Some? ==>
      |Run(cfg, args, picks, s0, i).codes| < |s0.codes| + i
    decreases i
  {
    if i > 0 {
      RunExtends(cfg, args, picks, s0, i - 1);
      var s := Run(cfg, args, picks, s0, i - 1);
      if s.failure.None? {
        var r := GenerateStep(cfg, args, s, picks[i - 1]);
        if r.failure.None? {
          assert r.codes[..|s0.codes|] == s.codes[..|s0.codes|];
        }
      }
    }
  }

  /** A run fails only as `autoGenerate` does; on an empty alphabet its first call fails and
      nothing is stored. */
  lemma {:induction false} RunFailure(cfg: Config, args: CodeArgs, picks: seq<Option<string>>,
                                      s0: GenState, i: nat)
    requires s0.failure.None? && i <= |picks|
    ensures Run(cfg, args, picks, s0, i).failure.Some? ==>
      Run(cfg, args, picks, s0, i).failure.value in {EmptyAlphabet, RetriesExhausted}
    ensures !Drawable(cfg.chars, cfg.length) && i > 0 ==>
      Run(cfg, args, picks, s0, i) == s0.(failure := Some(EmptyAlphabet))
    ensures Run(cfg, args, picks, s0, i).failure == Some(EmptyAlphabet) ==> !Drawable(cfg.chars, cfg.length)
    decreases i
  {
    if i > 0 {
      RunFailure(cfg, args, picks, s0, i - 1);
    }
  }

  /** Every code a run adds is a record as `autoGenerate` creates it from `args`. */
  lemma {:induction false} RunGenerated(cfg: Config, args: CodeArgs, picks: seq<Option<string>>,
                                        s0: GenState, i: nat)
    requires s0.failure.None? && i <= |picks|
    ensures forall j :: |s0.codes| <= j < |Run(cfg, args, picks, s0, i).codes| ==>
      IsGenerated(Run(cfg, args, picks, s0, i).codes[j], args)
    decreases i
  {
    if i > 0 {
      RunGenerated(cfg, args, picks, s0, i - 1);
      var s := Run(cfg, args, picks, s0, i - 1);
      if s.failure.None? {
        var r := GenerateStep(cfg, args, s, picks[i - 1]);
        if r.failure.None? {
          forall j | |s0.codes| <= j < |r.codes|
            ensures IsGenerated(r.codes[j], args)
          {
            if j < |s.codes| {
              assert r.codes[j] == r.codes[..|s.codes|][j];
            }
          }
        }
      }
    }
  }

  /** The search of the call after the one that stored the last code of `after` found no
      free candidate. */
  predicate NextSearchFails(cfg: Config, draws: seq<seq<seq<int>>>, before: seq<Code>, after: seq<Code>)
  {
    |before| <= |after| < |before| + |draws|
    && SearchResult(cfg, draws[|after| - |before|], after).None?
  }

  /** A failed search means what `autoGenerate` reports: every one of the `MaxTries + 1`
      candidates of that call is taken, up to letter case, by the stored codes. */
  lemma NextSearchFailsAllTaken(cfg: Config, draws: seq<seq<seq<int>>>, before: seq<Code>, after: seq<Code>, k: nat)
    requires NextSearchFails(cfg, draws, before, after) && Drawable(cfg.chars, cfg.length)
    requires forall i :: 0 <= i < |draws| ==> CandidateDraws(cfg, draws[i])
    requires k == |after| - |before|
    ensures forall u :: 0 <= u <= MaxTries ==> CodeTaken(Candidate(cfg, draws[k], u), after)
  {
    var d := draws[k];
    assert CandidateDraws(cfg, d);
    assert FirstFree(cfg, d, after, 0).None?;
  }

  /** A run that ends with `RetriesExhausted` does so because every candidate of its last
      call was taken, against the codes it ends with. */
  lemma RunRetriesExhausted(cfg: Config, args: CodeArgs, draws: seq<seq<seq<int>>>,
                            picks: seq<Option<string>>, s0: GenState)
    requires s0.failure.None? && 0 < |picks| <= |draws|
    requires PicksFirstFree(cfg, args, draws, picks, s0)
    requires Run(cfg, args, picks, s0, |picks| - 1).failure.None?
    requires Run(cfg, args, picks, s0, |picks|).failure == Some(RetriesExhausted)
    ensures Drawable(cfg.chars, cfg.length)
    ensures |Run(cfg, args, picks, s0, |picks|).codes| - |s0.codes| == |picks| - 1
    ensures NextSearchFails(cfg, draws, s0.codes, Run(cfg, args, picks, s0, |picks|).codes)
  {
    var n := |picks| - 1;
    var s := Run(cfg, args, picks, s0, n);
    RunExtends(cfg, args, picks, s0, n);
    assert Run(cfg, args, picks, s0, |picks|) == GenerateStep(cfg, args, s, picks[n]);
    assert PickIsFirstFree(cfg, args, draws, picks, s0, n);
    assert SearchResult(cfg, draws[n], s.codes).None?;
  }

  /** Each code in `after` beyond `before` is what the search over its call's draws
      returns against the codes stored before it (call `k` adds code `|before| + k`). */
  predicate AddedAsSearched(cfg: Config, draws: seq<seq<seq<int>>>, before: seq<Code>, after: seq<Code>)
    decreases |after|
  {
    |after| <= |before|
    || (|after| - |before| <= |draws|
        && AddedAsSearched(cfg, draws, before, after[..|after| - 1])
        && Some(after[|after| - 1].code)
           == SearchResult(cfg, draws[|after| - 1 - |before|], after[..|after| - 1]))
  }

  /** Appending the code the next search returned keeps `AddedAsSearched`. */
  lemma AddedAsSearchedSnoc(cfg: Config, draws: seq<seq<seq<int>>>, before: seq<Code>, prev: seq<Code>, c: Code)
    requires AddedAsSearched(cfg, draws, before, prev) && |before| <= |prev| < |before| + |draws|
    requires Some(c.code) == SearchResult(cfg, draws[|prev| - |before|], prev)
    ensures AddedAsSearched(cfg, draws, before, prev + [c])
  {
    assert (prev + [c])[..|prev|] == prev;
  }

  /** `AddedAsSearched` read code by code. */
  lemma {:induction false} AddedAsSearchedAt(cfg: Config, draws: seq<seq<seq<int>>>,
                                             before: seq<Code>, after: seq<Code>, j: nat)
    requires AddedAsSearched(cfg, draws, before, after) && |before| <= j < |after|
    ensures j - |before| < |draws|
    ensures Some(after[j].code) == SearchResult(cfg, draws[j - |before|], after[..j])
    decreases |after|
  {
    if j < |after| - 1 {
      var shorter := after[..|after| - 1];
      AddedAsSearchedAt(cfg, draws, before, shorter, j);
      assert shorter[j] == after[j] && shorter[..j] == after[..j];
    }
  }

  /** Each code a run adds is the search result of its call's draws against the codes
      stored before it. */
  lemma {:induction false} RunAddedAsSearched(cfg: Config, args: CodeArgs, draws: seq<seq<seq<int>>>,
                                              picks: seq<Option<string>>, s0: GenState, i: nat)
    requires s0.failure.None? && i <= |picks| <= |draws|
    requires PicksFirstFree(cfg, args, draws, picks, s0)
    ensures AddedAsSearched(cfg, draws, s0.codes, Run(cfg, args, picks, s0, i).codes)
    decreases i
  {
    if i == 0 {
    } else if !Drawable(cfg.chars, cfg.length) {
      RunFailure(cfg, args, picks, s0, i);
    } else {
      var k := i - 1;
      var s := Run(cfg, args, picks, s0, k);
      RunAddedAsSearched(cfg, args, draws, picks, s0, k);
      if s.failure.None? {
        var r := GenerateStep(cfg, args, s, picks[k]);
        if r.failure.None? {
          RunExtends(cfg, args, picks, s0, k);
          assert PickIsFirstFree(cfg, args, draws, picks, s0, k);
          var c := NewCode(picks[k].value, args).(id := s.nextId);
          assert r.codes == s.codes + [c];
          AddedAsSearchedSnoc(cfg, draws, s0.codes, s.codes, c);
        }
      }
    }
  }

  /** What `generate` promises, read off the state `r` after all its calls. */
  lemma RunOutcome(cfg: Config, args: CodeArgs, draws: seq<seq<seq<int>>>,
                   picks: seq<Option<string>>, s0: GenState, r: GenState)
    requires s0.failure.None? && |picks| <= |draws|
    requires PicksFirstFree(cfg, args, draws, picks, s0)
    requires r == Run(cfg, args, picks, s0, |picks|)
    requires r.failure.Some? ==> |picks| > 0 && Run(cfg, args, picks, s0, |picks| - 1).failure.None?
    ensures |s0.codes| <= |r.codes| && r.codes[..|s0.codes|] == s0.codes
    ensures r.failure.None? ==> |r.codes| == |s0.codes| + |picks|
    ensures r.failure.Some? ==> |r.codes| < |s0.codes| + |picks|
    ensures r.failure.Some? ==> r.failure.value == EmptyAlphabet || r.failure.value == RetriesExhausted
    ensures !Drawable(cfg.chars, cfg.length) && |picks| > 0 ==>
      r.failure == Some(EmptyAlphabet) && r.codes == s0.codes
    ensures r.failure == Some(EmptyAlphabet) ==> !Drawable(cfg.chars, cfg.length)
    ensures r.failure == Some(RetriesExhausted) ==>
      Drawable(cfg.chars, cfg.length) && NextSearchFails(cfg, draws, s0.codes, r.codes)
    ensures forall j :: |s0.codes| <= j < |r.codes| ==> IsGenerated(r.codes[j], args)
    ensures AddedAsSearched(cfg, draws, s0.codes, r.codes)
  {
    RunExtends(cfg, args, picks, s0, |picks|);
    RunFailure(cfg, args, picks, s0, |picks|);
    RunGenerated(cfg, args, picks, s0, |picks|);
    if r.failure == Some(RetriesExhausted) {
      RunRetriesExhausted(cfg, args, draws, picks, s0);
    }
    RunAddedAsSearched(cfg, args, draws, picks, s0, |picks|);
  }

  /** Recording one more pick leaves the earlier states alone and adds one step. */
  lemma RunSnoc(cfg: Config, args: CodeArgs, picks: seq<Option<string>>, s0: GenState, x: Option<string>)
    requires Run(cfg, args, picks, s0, |picks|).failure.None?
    ensures Run(cfg, args, picks + [x], s0, |picks|) == Run(cfg, args, picks, s0, |picks|)
    ensures Run(cfg, args, picks + [x], s0, |picks| + 1)
            == GenerateStep(cfg, args, Run(cfg, args, picks, s0, |picks|), x)
  {
    RunPrefix(cfg, args, picks, [x], s0, |picks|);
    assert (picks + [x])[|picks|] == x;
  }

  /** Pick `k` stays the true search result when a later pick is recorded. */
  lemma PickKept(cfg: Config, args: CodeArgs, draws: seq<seq<seq<int>>>,
                 picks: seq<Option<string>>, s0: GenState, x: Option<string>, k: nat)
    requires k < |picks| < |draws|
    requires PickIsFirstFree(cfg, args, draws, picks, s0, k)
    ensures PickIsFirstFree(cfg, args, draws, picks + [x], s0, k)
  {
    RunPrefix(cfg, args, picks, [x], s0, k);
    assert (picks + [x])[k] == picks[k];
  }

  /** Recording one more call whose pick is its true search result keeps every pick true and
      extends the run by one step. */
  lemma RunNext(cfg: Config, args: CodeArgs, draws: seq<seq<seq<int>>>,
                picks: seq<Option<string>>, s0: GenState, s: GenState, x: Option<string>)
    requires |picks| < |draws|
    requires PicksFirstFree(cfg, args, draws, picks, s0)
    requires s == Run(cfg, args, picks, s0, |picks|) && s.failure.None?
    requires Drawable(cfg.chars, cfg.length) ==> x == SearchResult(cfg, draws[|picks|], s.codes)
    ensures PicksFirstFree(cfg, args, draws, picks + [x], s0)
    ensures Run(cfg, args, picks + [x], s0, |picks|).failure.None?
    ensures Run(cfg, args, picks + [x], s0, |picks| + 1) == GenerateStep(cfg, args, s, x)
  {
    RunSnoc(cfg, args, picks, s0, x);
    if Drawable(cfg.chars, cfg.length) {
      forall k | 0 <= k < |picks| + 1
        ensures PickIsFirstFree(cfg, args, draws, picks + [x], s0, k)
      {
        if k < |picks| {
          assert PickIsFirstFree(cfg, args, draws, picks, s0, k);
          PickKept(cfg, args, draws, picks, s0, x, k);
        } else {
          assert (picks + [x])[k] == x;
        }
      }
    }
  }

  /** One iteration of `generate`'s loop: an `autoGenerate` call with writing, drawing from
      `d`, together with the outcome `x` of its search for an untaken candidate. */
  method GenerateCall(reg: Registry, args: CodeArgs, cfg: Config, d: seq<seq<int>>)
    returns (res: Result<Code, CodeError>, ghost x: Option<string>)
    requires reg.Valid() && CandidateDraws(cfg, d)
    modifies reg
    ensures reg.Valid() && reg.redemptions == old(reg.redemptions)
    ensures Drawable(cfg.chars, cfg.length) ==> x == SearchResult(cfg, d, old(reg.codes))
    ensures GenState(reg.codes, reg.nextCodeId, if res.Err? then Some(res.error) else None)
            == GenerateStep(cfg, args, GenState(old(reg.codes), old(reg.nextCodeId), None), x)
  {
    x := if Drawable(cfg.chars, cfg.length) then SearchResult(cfg, d, reg.codes) else None;
    res := reg.AutoGenerate(args, true, cfg, d);
  }

  /** One iteration of `generate`'s loop as `Run` sees it: after the calls recorded in
      `picks`, call `|picks|` adds one pick, and the registry ends as `Run` says. */
  method GenerateNext(reg: Registry, args: CodeArgs, cfg: Config, draws: seq<seq<seq<int>>>, i: nat,
                      ghost picks: seq<Option<string>>, ghost s0: GenState)
    returns (res: Result<Code, CodeError>, ghost picks': seq<Option<string>>)
    requires reg.Valid() && i == |picks| < |draws| && s0.failure.None?
    requires forall j :: 0 <= j < |draws| ==> CandidateDraws(cfg, draws[j])
    requires PicksFirstFree(cfg, args, draws, picks, s0)
    requires GenState(reg.codes, reg.nextCodeId, None) == Run(cfg, args, picks, s0, |picks|)
    modifies reg
    ensures reg.Valid() && reg.redemptions == old(reg.redemptions)
    ensures |picks'| == |picks| + 1
    ensures PicksFirstFree(cfg, args, draws, picks', s0)
    ensures Run(cfg, args, picks', s0, |picks|).failure.None?
    ensures GenState(reg.codes, reg.nextCodeId, if res.Err? then Some(res.error) else None)
            == Run(cfg, args, picks', s0, |picks'|)
  {
    ghost var s := GenState(reg.codes, reg.nextCodeId, None);
    ghost var x;
    res, x := GenerateCall(reg, args, cfg, draws[i]);
    RunNext(cfg, args, draws, picks, s0, s, x);
    picks' := picks + [x];
  }

  /** The loop of `generate`: up to `quantity` calls of `autoGenerate`, call `i` drawing
      from `draws[i]`, stopping at the first failure. The codes it stores and the failure
      are those of `Run` over the picks the calls made, and each pick is the true search
      result of its call. */
  method GenerateCalls(reg: Registry, args: CodeArgs, cfg: Config, draws: seq<seq<seq<int>>>, quantity: nat)
    returns (failure: Option<CodeError>, ghost picks: seq<Option<string>>)
    requires reg.Valid() && quantity <= |draws|
    requires forall i :: 0 <= i < |draws| ==> CandidateDraws(cfg, draws[i])
    modifies reg
    ensures reg.Valid() && reg.redemptions == old(reg.redemptions)
    ensures |picks| <= quantity && (failure.None? ==> |picks| == quantity)
    ensures PicksFirstFree(cfg, args, draws, picks, GenState(old(reg.codes), old(reg.nextCodeId), None))
    ensures GenState(reg.codes, reg.nextCodeId, failure)
            == Run(cfg, args, picks, GenState(old(reg.codes), old(reg.nextCodeId), None), |picks|)
    ensures failure.Some? ==>
      |picks| > 0
      && Run(cfg, args, picks, GenState(old(reg.codes), old(reg.nextCodeId), None), |picks| - 1).failure.None?
  {
    picks := [];
    failure := None;
    ghost var s0 := GenState(reg.codes, reg.nextCodeId, None);
    for i := 0 to quantity
      invariant reg.Valid() && reg.redemptions == old(reg.redemptions)
      invariant |picks| == i
      invariant PicksFirstFree(cfg, args, draws, picks, s0)
      invariant GenState(reg.codes, reg.nextCodeId, None) == Run(cfg, args, picks, s0, i)
    {
      var res;
      res, picks := GenerateNext(reg, args, cfg, draws, i, picks, s0);
      if res.Err? {
        return Some(res.error), picks;
      }
    }
  }

  /** `generate`: call `autoGenerate` (with writing) `Quantity` times, call `i` drawing from
      `draws[i]`. Code `i` is the first untaken candidate of `draws[i]` against the codes
      stored before it. A call fails only as `autoGenerate` does: on an empty alphabet, or
      when all of its candidates are taken. A failure ends the action: codes already
      written stay, no further code is created, and the failure is returned. Every stored
      code stays unique up to letter case. */
  method Generate(reg: Registry, data: GenerateData, cfg: Config, draws: seq<seq<seq<int>>>)
    returns (failure: Option<CodeError>, ghost picks: seq<Option<string>>)
    requires reg.Valid()
    requires ShouldGenerate(data) ==>
      |draws| >= data.quantity && forall i :: 0 <= i < |draws| ==> CandidateDraws(cfg, draws[i])
    modifies reg
    ensures reg.Valid() && UniqueNoCase(reg.codes)
    ensures reg.redemptions == old(reg.redemptions)
    ensures !ShouldGenerate(data) ==> failure.None? && reg.codes == old(reg.codes)
    ensures |old(reg.codes)| <= |reg.codes| && reg.codes[..|old(reg.codes)|] == old(reg.codes)
    ensures failure.None? && ShouldGenerate(data) ==> |reg.codes| == |old(reg.codes)| + data.quantity
    ensures failure.Some? ==> ShouldGenerate(data) && |reg.codes| < |old(reg.codes)| + data.quantity
    ensures failure.Some? ==> failure.value == EmptyAlphabet || failure.value == RetriesExhausted
    ensures ShouldGenerate(data) && !Drawable(cfg.chars, cfg.length) ==>
      failure == Some(EmptyAlphabet) && reg.codes == old(reg.codes)
    ensures failure == Some(EmptyAlphabet) ==> !Drawable(cfg.chars, cfg.length)
    ensures failure == Some(RetriesExhausted) ==>
      Drawable(cfg.chars, cfg.length) && NextSearchFails(cfg, draws, old(reg.codes), reg.codes)
    ensures forall j :: |old(reg.codes)| <= j < |reg.codes| ==> IsGenerated(reg.codes[j], FormArgs(data))
    ensures ShouldGenerate(data) ==>
      |picks| <= data.quantity && (failure.None? ==> |picks| == data.quantity)
      && PicksFirstFree(cfg, FormArgs(data), draws, picks, GenState(old(reg.codes), old(reg.nextCodeId), None))
      && GenState(reg.codes, reg.nextCodeId, failure)
         == Run(cfg, FormArgs(data), picks, GenState(old(reg.codes), old(reg.nextCodeId), None), |picks|)
    ensures AddedAsSearched(cfg, draws, old(reg.codes), reg.codes)
  {
    picks := [];
    failure := None;
    if !ShouldGenerate(data) {
      return;
    }
    failure, picks := GenerateCalls(reg, FormArgs(data), cfg, draws, data.quantity);
    RunOutcome(cfg, FormArgs(data), draws, picks, GenState(old(reg.codes), old(reg.nextCodeId), None),
               GenState(reg.codes, reg.nextCodeId, failure));
  }
}
