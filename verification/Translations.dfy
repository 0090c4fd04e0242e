/** Fetching translations: one job per requested locale, each waiting for the
    bundles of three sources and then writing into the shared result. */
module Translations {
  import opened Wrappers

  type Bundle = map<string, string>

  datatype Source = Catalogue | AuthenticSources | Taxonomy

  datatype Localization = Localization(availableLocales: seq<string>, baseUri: string)

  /** The sources that are configured, the requested locales, and what the network
      answers for a base URI and a locale. */
  datatype Request = Request(
    sources: map<Source, Localization>,
    locales: seq<string>,
    fetch: (string, string) -> Option<Bundle>)

  /** What a job gets from one source: nothing to merge if the source is absent or
      lacks the locale, and otherwise the fetched bundle, unless fetching fails. */
  function Delivered(request: Request, locale: string, source: Source): Option<Bundle> {
    if source in request.sources && locale in request.sources[source].availableLocales
    then request.fetch(request.sources[source].baseUri, locale)
    else Some(map[])
  }

  /** The state shared by the jobs: the bundles that have arrived, the jobs that
      have written, the result, and whether some fetch was rejected. */
  datatype State = State(
    arrived: map<(nat, Source), Bundle>,
    finished: set<nat>,
    result: map<string, Bundle>,
    failed: bool)

  const INITIAL := State(map[], {}, map[], false)

  // ------------------------------------------------------------------- steps

  /** A bundle arrives for a job, or its fetch is rejected. */
  ghost predicate Receives(request: Request, s: State, s': State, job: nat, source: Source) {
    && job < |request.locales| && (job, source) !in s.arrived
    && match Delivered(request, request.locales[job], source)
       case None => s' == s.(failed := true)
       case Some(bundle) => s' == s.(arrived := s.arrived[(job, source) := bundle])
  }

  predicate Ready(s: State, job: nat) {
    (job, Catalogue) in s.arrived && (job, AuthenticSources) in s.arrived && (job, Taxonomy) in s.arrived
  }

  function MergedBundle(s: State, job: nat): Bundle
    requires Ready(s, job)
  {
    s.arrived[(job, Catalogue)] + s.arrived[(job, AuthenticSources)] + s.arrived[(job, Taxonomy)]
  }

  /** A job with all its bundles writes its merge, unless that is empty. */
  ghost predicate Finishes(request: Request, s: State, s': State, job: nat) {
    && job < |request.locales| && job !in s.finished && Ready(s, job)
    && s' == s.(finished := s.finished + {job},
                result := if MergedBundle(s, job) == map[] then s.result
                          else s.result[request.locales[job] := MergedBundle(s, job)])
  }

  ghost predicate Next(request: Request, s: State, s': State) {
    (exists job: nat, source :: Receives(request, s, s', job, source)) ||
    (exists job: nat :: Finishes(request, s, s', job))
  }

  /** A run of the jobs, in any interleaving. */
  ghost predicate IsRun(request: Request, states: seq<State>) {
    && states != [] && states[0] == INITIAL
    && forall k :: 0 <= k < |states| - 1 ==> Next(request, states[k], states[k + 1])
  }

  ghost predicate AllFinished(request: Request, s: State) {
    forall job: nat :: job < |request.locales| ==> job in s.finished
  }

  // ------------------------------------------------------------- specification

  ghost predicate Fetchable(request: Request, locale: string) {
    forall source: Source :: Delivered(request, locale, source).Some?
  }

  /** The translation of one key: the taxonomy's over that of the authentic sources
      over the catalogue's. */
  function Translation(request: Request, locale: string, key: string): Option<string> {
    var ofTaxonomy := InBundle(Delivered(request, locale, Taxonomy), key);
    var ofSources := InBundle(Delivered(request, locale, AuthenticSources), key);
    if ofTaxonomy.Some? then ofTaxonomy
    else if ofSources.Some? then ofSources
    else InBundle(Delivered(request, locale, Catalogue), key)
  }

  /** The source is configured, has the locale, and is fetched from its base URI. */
  ghost predicate Asked(request: Request, locale: string, source: Source, baseUri: string) {
    source in request.sources && locale in request.sources[source].availableLocales && request.sources[source].baseUri == baseUri
  }

  /** The source is asked and its answer has the translation. */
  ghost predicate Offers(request: Request, locale: string, source: Source, key: string, translation: string) {
    exists baseUri :: Asked(request, locale, source, baseUri) && request.fetch(baseUri, locale).Some?
                      && key in request.fetch(baseUri, locale).value && request.fetch(baseUri, locale).value[key] == translation
  }

  ghost predicate OffersNone(request: Request, locale: string, source: Source, key: string) {
    forall translation :: !Offers(request, locale, source, key, translation)
  }

  function InBundle(bundle: Option<Bundle>, key: string): Option<string> {
    if bundle.Some? && key in bundle.value then Some(bundle.value[key]) else None
  }

  function Keys(bundle: Option<Bundle>): set<string> {
    if bundle.Some? then bundle.value.Keys else {}
  }

  /** All translations of a locale. */
  function TranslationsOf(request: Request, locale: string): Bundle {
    var keys := Keys(Delivered(request, locale, Catalogue)) + Keys(Delivered(request, locale, AuthenticSources))
                + Keys(Delivered(request, locale, Taxonomy));
    map key | key in keys && Translation(request, locale, key).Some? :: Translation(request, locale, key).value
  }

  /** The declared result: the requested locales that have some translation, each
      with all its translations. */
  function Translated(request: Request): map<string, Bundle> {
    map l | l in request.locales && TranslationsOf(request, l) != map[] :: TranslationsOf(request, l)
  }

  // ------------------------------------------------------------------- proofs

  /** A locale can be fetched exactly when every source asked for it answers. */
  lemma FetchableWhenAnswered(request: Request, locale: string)
    ensures Fetchable(request, locale)
       <==> forall source, baseUri :: Asked(request, locale, source, baseUri) ==> request.fetch(baseUri, locale).Some?
  {
    forall source: Source, baseUri | Asked(request, locale, source, baseUri)
      ensures Delivered(request, locale, source) == request.fetch(baseUri, locale)
    {
    }
    if !Fetchable(request, locale) {
      var source :| Delivered(request, locale, source).None?;
      assert Asked(request, locale, source, request.sources[source].baseUri);
    }
  }

  lemma DeliveredIsOffered(request: Request, locale: string, source: Source, key: string)
    ensures forall translation :: InBundle(Delivered(request, locale, source), key) == Some(translation)
              <==> Offers(request, locale, source, key, translation)
    ensures InBundle(Delivered(request, locale, source), key) == None <==> OffersNone(request, locale, source, key)
  {
    var found := InBundle(Delivered(request, locale, source), key);
    if found.Some? {
      assert Asked(request, locale, source, request.sources[source].baseUri);
      assert Offers(request, locale, source, key, found.value);
    }
  }

  /** The translation of a key is what the taxonomy offers, else what the authentic
      sources offer, else what the catalogue offers. */
  lemma TranslationIsOffered(request: Request, locale: string, key: string, translation: string)
    ensures Translation(request, locale, key) == Some(translation)
       <==> || Offers(request, locale, Taxonomy, key, translation)
            || (OffersNone(request, locale, Taxonomy, key) && Offers(request, locale, AuthenticSources, key, translation))
            || (OffersNone(request, locale, Taxonomy, key) && OffersNone(request, locale, AuthenticSources, key)
                && Offers(request, locale, Catalogue, key, translation))
  {
    DeliveredIsOffered(request, locale, Taxonomy, key);
    DeliveredIsOffered(request, locale, AuthenticSources, key);
    DeliveredIsOffered(request, locale, Catalogue, key);
  }

  /** Some finished job is for the locale. */
  ghost predicate Written(request: Request, s: State, l: string) {
    exists job :: job in s.finished && job < |request.locales| && request.locales[job] == l
  }

  ghost predicate ArrivedAsDelivered(request: Request, s: State) {
    forall job, source :: (job, source) in s.arrived ==>
      job < |request.locales| && Delivered(request, request.locales[job], source) == Some(s.arrived[(job, source)])
  }

  /** What every step keeps: bundles are what their source delivers, only ready
      jobs have finished, and the result holds the translations of exactly the
      finished jobs' locales, as far as these have any. */
  ghost predicate Inv(request: Request, s: State) {
    && ArrivedAsDelivered(request, s)
    && (forall job :: job in s.finished ==> job < |request.locales| && Ready(s, job))
    && (forall l :: l in s.result <==> Written(request, s, l) && TranslationsOf(request, l) != map[])
    && forall l :: l in s.result ==> s.result[l] == TranslationsOf(request, l)
  }

  /** The spread of the three bundles gives each key its declared translation. */
  lemma MergeIsTranslation(request: Request, s: State, job: nat)
    requires ArrivedAsDelivered(request, s) && Ready(s, job)
    ensures job < |request.locales| && Fetchable(request, request.locales[job])
    ensures MergedBundle(s, job) == TranslationsOf(request, request.locales[job])
  {
    var l := request.locales[job];
    var merged := MergedBundle(s, job);
    forall source: Source
      ensures Delivered(request, l, source).Some?
    {
      match source
      case Catalogue => assert (job, Catalogue) in s.arrived;
      case AuthenticSources => assert (job, AuthenticSources) in s.arrived;
      case Taxonomy => assert (job, Taxonomy) in s.arrived;
    }
    forall key
      ensures InBundle(Some(merged), key) == InBundle(Some(TranslationsOf(request, l)), key)
    {
      assert InBundle(Some(merged), key) == Translation(request, l, key);
    }
    SameBundle(merged, TranslationsOf(request, l));
  }

  lemma SameBundle(a: Bundle, b: Bundle)
    requires forall key :: InBundle(Some(a), key) == InBundle(Some(b), key)
    ensures a == b
  {
    assert forall key :: key in a <==> InBundle(Some(a), key).Some?;
    assert forall key :: key in b <==> InBundle(Some(b), key).Some?;
    assert forall key :: key in a ==> InBundle(Some(a), key) == Some(a[key]);
    assert forall key :: key in b ==> InBundle(Some(b), key) == Some(b[key]);
  }

  lemma ReceivingKeepsInv(request: Request, s: State, s': State, job: nat, source: Source)
    requires Inv(request, s) && Receives(request, s, s', job, source)
    ensures Inv(request, s')
  {
    assert forall l :: Written(request, s', l) <==> Written(request, s, l);
  }

  lemma OneMoreWritten(request: Request, s: State, s': State, job: nat, l: string)
    requires Finishes(request, s, s', job)
    ensures Written(request, s', l) <==> Written(request, s, l) || l == request.locales[job]
  {
    if Written(request, s, l) {
      var t :| t in s.finished && t < |request.locales| && request.locales[t] == l;
      assert t in s'.finished;
    }
    if l == request.locales[job] {
      assert job in s'.finished;
    }
  }

  lemma ResultAfterFinishing(request: Request, s: State, s': State, job: nat, l: string)
    requires Inv(request, s) && Finishes(request, s, s', job)
    ensures l in s'.result <==> Written(request, s', l) && TranslationsOf(request, l) != map[]
    ensures l in s'.result ==> s'.result[l] == TranslationsOf(request, l)
  {
    MergeIsTranslation(request, s, job);
    OneMoreWritten(request, s, s', job, l);
  }

  lemma FinishingKeepsInv(request: Request, s: State, s': State, job: nat)
    requires Inv(request, s) && Finishes(request, s, s', job)
    ensures Inv(request, s')
  {
    forall l
      ensures l in s'.result <==> Written(request, s', l) && TranslationsOf(request, l) != map[]
      ensures l in s'.result ==> s'.result[l] == TranslationsOf(request, l)
    {
      ResultAfterFinishing(request, s, s', job, l);
    }
  }

  lemma {:induction false} EveryRunKeepsInv(request: Request, states: seq<State>, k: nat)
    requires IsRun(request, states) && k < |states|
    ensures Inv(request, states[k])
    decreases k
  {
    if k > 0 {
      EveryRunKeepsInv(request, states, k - 1);
      var s, s' := states[k - 1], states[k - 1 + 1];
      assert Next(request, s, s');
      if job: nat, source :| Receives(request, s, s', job, source) {
        ReceivingKeepsInv(request, s, s', job, source);
      } else {
        var job: nat :| Finishes(request, s, s', job);
        FinishingKeepsInv(request, s, s', job);
      }
    }
  }

  lemma LocaleWritten(request: Request, s: State, l: string)
    requires Inv(request, s) && AllFinished(request, s) && l in request.locales
    ensures Written(request, s, l) && Fetchable(request, l)
  {
    var job: nat :| job < |request.locales| && request.locales[job] == l;
    assert job in s.finished;
    MergeIsTranslation(request, s, job);
  }

  lemma FinishedIsTranslated(request: Request, s: State)
    requires Inv(request, s) && AllFinished(request, s)
    ensures forall l :: l in request.locales ==> Fetchable(request, l)
    ensures s.result == Translated(request)
  {
    forall l
      ensures Written(request, s, l) <==> l in request.locales
      ensures l in request.locales ==> Fetchable(request, l)
    {
      if l in request.locales {
        LocaleWritten(request, s, l);
      }
    }
    IsTranslated(request, s.result);
  }

  lemma IsTranslated(request: Request, result: map<string, Bundle>)
    requires forall l :: l in result <==> l in request.locales && TranslationsOf(request, l) != map[]
    requires forall l :: l in result ==> result[l] == TranslationsOf(request, l)
    ensures result == Translated(request)
  {
    assert result.Keys == Translated(request).Keys;
  }

  /** Confluence. Whatever the order in which bundles arrive and jobs finish,
      repeated locales included, every run in which all jobs have finished ends
      with the declared translations; and it can only get there if no fetch it
      needs is rejected. */
  lemma RunsAreConfluent(request: Request, states: seq<State>)
    requires IsRun(request, states) && AllFinished(request, states[|states| - 1])
    ensures forall l :: l in request.locales ==> Fetchable(request, l)
    ensures states[|states| - 1].result == Translated(request)
  {
    EveryRunKeepsInv(request, states, |states| - 1);
    FinishedIsTranslated(request, states[|states| - 1]);
  }

  // ------------------------------------------------------------- the algorithm

  /** The shared record and the jobs that write into it. */
  class TranslationJobs {
    const request: Request
    var arrived: map<(nat, Source), Bundle>
    var finished: set<nat>
    var result: map<string, Bundle>
    var failed: bool

    function Current(): State
      reads this
    {
      State(arrived, finished, result, failed)
    }

    ghost predicate Valid()
      reads this
    {
      Inv(request, Current())
    }

    constructor (request: Request)
      ensures this.request == request && Current() == INITIAL && Valid()
    {
      this.request := request;
      arrived, finished, result, failed := map[], {}, map[], false;
    }

    /** One of a job's fetches is answered. */
    method Receive(job: nat, source: Source)
      requires Valid() && job < |request.locales| && (job, source) !in arrived
      modifies this
      ensures Valid() && Receives(request, old(Current()), Current(), job, source)
    {
      match Delivered(request, request.locales[job], source)
      case None => failed := true;
      case Some(bundle) => arrived := arrived[(job, source) := bundle];
      ReceivingKeepsInv(request, old(Current()), Current(), job, source);
    }

    /** A job whose three fetches are answered merges and writes. */
    method Finish(job: nat)
      requires Valid() && job < |request.locales| && job !in finished && Ready(Current(), job)
      modifies this
      ensures Valid() && Finishes(request, old(Current()), Current(), job)
    {
      var merged := MergedBundle(Current(), job);
      if merged != map[] {
        result := result[request.locales[job] := merged];
      }
      finished := finished + {job};
      FinishingKeepsInv(request, old(Current()), Current(), job);
    }
  }

  function UpTo(n: nat): (r: set<nat>)
    ensures forall i: nat :: i in r <==> i < n
  {
    if n == 0 then {} else UpTo(n - 1) + {n - 1}
  }

  /** Runs the jobs in an arbitrary order until all have written or a fetch is
      rejected. */
  method FetchTranslations(request: Request) returns (r: Option<map<string, Bundle>>)
    ensures r.Some? <==> forall l :: l in request.locales ==> Fetchable(request, l)
    ensures r.Some? ==> r.value == Translated(request)
  {
    var jobs := new TranslationJobs(request);
    var n := |request.locales|;
    var awaited: set<(nat, Source)> := set job: nat, source: Source | 0 <= job < n :: (job, source);
    var unfinished := UpTo(n);
    while unfinished != {}
      invariant jobs.request == request && !jobs.failed && jobs.Valid() && fresh(jobs)
      invariant forall p :: p in awaited ==> 0 <= p.0 < n && p !in jobs.arrived
      invariant forall job: nat, source: Source :: job < n && (job, source) !in awaited ==> (job, source) in jobs.arrived
      invariant forall job: nat :: job in unfinished <==> job < n && job !in jobs.finished
      decreases |awaited| + |unfinished|
    {
      var job :| job in unfinished;
      var answerFirst: bool := *;
      if awaited != {} && (answerFirst || !Ready(jobs.Current(), job)) {
        var p :| p in awaited;
        jobs.Receive(p.0, p.1);
        if jobs.failed {
          assert !Fetchable(request, request.locales[p.0]);
          return None;
        }
        awaited := awaited - {p};
      } else {
        assert awaited == {} ==> (job, Catalogue) !in awaited && (job, AuthenticSources) !in awaited && (job, Taxonomy) !in awaited;
        jobs.Finish(job);
        unfinished := unfinished - {job};
      }
    }
    FinishedIsTranslated(request, jobs.Current());
    return Some(jobs.result);
  }
}
