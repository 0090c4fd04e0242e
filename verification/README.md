# Wallet verification

A model in Dafny of the computing core of the wallet library, with proofs of what it
promises. Network answers, signature and certificate checks, the JWT and SD-JWT
libraries and the DCQL query engine are inputs: maps of what is published, functions
that answer, results with stated well-formedness.

`dafny verify dfyconfig.toml` checks everything.

## What is modelled

- **Trust chains** (`Federation`, `HintGraph`, `TrustChainGathering`,
  `TrustChainValidation`, `TrustChainLifecycle`). Three traversals of a federation:
  gathering a chain along first authority hints, validating each token under the keys
  of the next, and renewing a chain token by token. A gathered chain has a closed
  form; gathering terminates exactly on acyclic hints; validation accepts exactly the
  runs of signature and certificate steps from the anchor's keys; a gathered chain
  validates exactly when the federation is signed as it should be; renewing a chain
  yields exactly what is now served in place of each token, and is gathering it again.
- **SD-JWT localisation** (`Json`, `IssuerConfig`, `SdJwtParser`, `SdJwtLocalisation`,
  `SdJwtNaming`). The recursive loops are proved equal to a declarative function on the
  JSON tree for every claim list, numeric segments included. About that function: data
  is conserved, and it is told exactly for which claim lists a position is retained if
  and only if a displayable path declares it, every attached name is the configured
  one, and two lists, one a permutation of the other, say, parse all credentials alike.
- **Presentation frames** (`Decimals`, `PresentationFrame`, `FrameMerging`,
  `DcqlDisclosure`). Claim paths are compiled to disclosure trees and merged; the
  merged frame covers no more than what the claims path pointers select, and exactly
  that if and only if the merge loses nothing, which is told by comparing the trees.
- **Query evaluation and response** (`DcqlEvaluation`). Index, results, consent lists,
  and the two shapes of `vp_token`.
- **mdoc parsing** (`MdocParser`), the **catalogue join** (`Collections`,
  `CredentialsCatalogue`), the **interleaved fetching of translations**
  (`Translations`), **random obfuscation** (`Obfuscation`) and the **SD-JWT
  normaliser** (`Strings`, `SdJwtToken`).

Recursion and loops that update variables in the source are methods with loops here,
each proved against a function of its inputs; objects with shared state are classes.

## Where the code does less than it says

These are stated as they are in the code, with the exact condition under which the
intended property holds.

- Merging frames is meant not to lose objects with the same key. The merged frame
  covers all that its frames cover exactly when, on each root, the last frame closes
  it, or none does and on each second-level key the first child includes the others
  (`FrameMerging.MergeLosesNothing`). `FrameMerging.DeeperSiblingLost` and
  `FrameMerging.ReopenedRootLost` are inputs where it does not.
- A `null` behind two or more keys is compiled against the claim's first value, which
  is then no array, and the frame discloses the array's elements as a whole. That is
  more than the path selects exactly when the path goes on and there are elements
  (`PresentationFrame.NullBehindKeysOverDiscloses`).
- Renewal recognises entity configurations first. A statement that also has the shape
  of a configuration is renewed to its issuer's configuration; renewal is rebuilding
  exactly when that changes nothing (`TrustChainLifecycle.RenewalAlongWalk`, and
  `TrustChainLifecycle.StatementRenewedAsConfiguration` for an input where it does).
- The normaliser appends the missing tilde unless the last segment has three dotted
  parts, so a bare JWT without disclosures stays without one
  (`SdJwtToken.NormalisedEnd`, `SdJwtToken.HashedPrefixKept`, `SdJwtToken.BareJwt`).
- The lookup of `verification` in a parsed mdoc goes by suffix among the attributes
  shown, the one in the signed document by equality among all elements. If one element
  ends in `verification`, they agree exactly when its value is empty, or it is named
  `verification` and shown, or it is neither (`MdocParser.LookupsAgree`;
  `MdocParser.HiddenVerification` and `MdocParser.SuffixTaken` are inputs where they
  do not).
- The table of a parsed mdoc is keyed by namespace and identifier joined with a colon.
  It shows every element under every configuration exactly when no two different
  elements share a key (`MdocParser.ShownWhenToldApart`), as colon-free namespaces with
  unique pairs ensure; `MdocParser.ColonsCollide` are two that share one.
- Numeric path segments are spelled as keys when looked up, kept as numbers in the
  paths compared, and remembered as numbers among the processed keys. Retention is as
  intended exactly when at no place that a claim declares this keeps an undeclared
  field or hides a declared one (`SdJwtLocalisation.RetentionExactly`), names when at
  all such places the name found is the configured one (`SdJwtNaming.NamesExactly`),
  and the order of claims is irrelevant when no two of them part with a number and with
  the key it spells (`SdJwtNaming.ClaimOrderIrrelevant`; exactly when in
  `SdJwtNaming.ParsedAlikeExactly`). The three conditions can be computed from the
  claim list, and hold for paths of strings and `null`.
  `SdJwtLocalisation.IndexKeepsUndeclaredField`,
  `SdJwtLocalisation.IndexHidesDeclaredField`, `SdJwtNaming.IndexLosesName` and
  `SdJwtNaming.IndexOrderMatters` are inputs where they fail.

## Model

| member | source | states |
|---|---|---|
| `Federation.FindKey` | src/trust/common/utils.ts:29-32 | finds a key with the id exactly when there is one, and then the first |
| `HintGraph.HaltingIsAcyclic` | src/trust/common/build-chain.ts:103-170 | a walk along first hints that ends visits no entity twice |
| `HintGraph.AcyclicHalts` | src/trust/common/build-chain.ts:103-170 | a walk that visits no entity twice ends within as many steps as there are entities |
| `HintGraph.RankBoundsWalk` | src/trust/common/build-chain.ts:103-170 | a rank that decreases along first hints bounds the recursion by the leaf's rank |
| `TrustChainGathering.GatherTrustChain` | src/trust/common/build-chain.ts:103-170 | the recursion with its local chain returns the non-recursive chain of the walk, or the error of the walk's end, whenever the walk ends |
| `TrustChainGathering.ClimbOutcome` | src/trust/common/build-chain.ts:108-157 | a call goes up exactly when the configuration is served and well shaped and its first hint is non-empty and names a parent that serves a statement; it stops at the top exactly when there is no hint; it fails otherwise |
| `TrustChainGathering.ClimbFailure` | src/trust/common/build-chain.ts:120-145 | which error a call fails with: an empty first hint, or a well-shaped parent without a fetch endpoint |
| `TrustChainGathering.WalkFollowsFirstHints` | src/trust/common/build-chain.ts:120-130 | each entity's first published hint is the next entity, and the last entity has no hints |
| `TrustChainGathering.ChainShape` | src/trust/common/build-chain.ts:108-169 | d steps below the top the chain has d + 2 tokens (1 if d is 0): the leaf's configuration, what each parent's own fetch endpoint serves about the entity below it, the top's configuration |
| `TrustChainGathering.GatheringSucceeds` | src/trust/common/build-chain.ts:108-169 | gathering along a walk succeeds if and only if the walk ends at a well-shaped configuration without hints |
| `TrustChainGathering.TerminationCondition` | src/trust/common/build-chain.ts:103-170 | gathering ends if and only if the first hints are acyclic from the leaf on, and then recurses at most once per published configuration |
| `TrustChainValidation.ChecksVouch` | src/trust/common/verify-chain.ts:231-290 | key lookup, signature and certificate checks succeed exactly when the first key with the token's id verifies it and has an accepted certificate chain |
| `TrustChainValidation.AcceptedWhenVouched` | src/trust/common/verify-chain.ts:207-290 | a token of a well-shaped chain is accepted exactly when the keys reached from the anchor down to the next token vouch for it |
| `TrustChainValidation.AnchorCertificateIsTheSigners` | src/trust/common/utils.ts:128-151 | the anchor certificate is the first certificate of the first key with the anchor's header id, present and non-empty |
| `TrustChainValidation.ParsesWhenWellShaped` | src/trust/common/verify-chain.ts:186-205 | every token parses under the shape selected by its position exactly when all are non-empty and decodable and the first, the inner and the last ones have the shapes meant for them, a single one that of the first |
| `TrustChainValidation.AnchorIsSuppliedSeparately` | src/trust/common/verify-chain.ts:263-270 | of a certificate chain only a trailing anchor certificate is taken off, and never the only certificate |
| `TrustChainValidation.ValidationIsARun` | src/trust/common/verify-chain.ts:176-294 | validation succeeds if and only if the chain is non-empty, well shaped and, read from its end, a run of signature and certificate steps from the anchor's keys; it returns the decoded tokens in order |
| `TrustChainValidation.AcceptedKeysAreTrusted` | src/trust/common/verify-chain.ts:186-293 | in an accepted chain every token's key set is derivable from the anchor's keys by such a run |
| `TrustChainLifecycle.RenewedIsFresh` | src/trust/common/verify-chain.ts:113-147 | a token is renewed to exactly what is now served in its place, a configuration by its entity, a statement by its issuer's own endpoint, and fails to be exactly when nothing is |
| `TrustChainLifecycle.ChainRenewedWhenServed` | src/trust/common/verify-chain.ts:112-153 | a chain is renewed to the tokens now served in place of its own, position by position, and to nothing else |
| `TrustChainLifecycle.RenewalFailsWhenWithdrawn` | src/trust/common/verify-chain.ts:112-153 | renewal fails if and only if nothing is served in place of some token |
| `TrustChainLifecycle.WithdrawnStatement` | src/trust/common/verify-chain.ts:142-146 | a chain with a statement that no endpoint serves any more is not renewed |
| `TrustChainLifecycle.ConfigurationRenewed` | src/trust/common/verify-chain.ts:114-119 | a configuration that names its own entity is renewed to that entity's new configuration |
| `TrustChainLifecycle.StatementRenewed` | src/trust/common/verify-chain.ts:114-147 | a statement that names issuer and subject is renewed to the issuer's new statement about the subject, unless it passes for a configuration |
| `TrustChainLifecycle.RenewalAlongWalk` | src/trust/common/verify-chain.ts:102-154 | renewing the old chain over the new publication equals the newly gathered chain if and only if no statement that passes for a configuration is renewed to something else |
| `TrustChainLifecycle.RenewalRebuilds` | src/trust/common/verify-chain.ts:102-154 | with the same first hints of the entities on the way, self-naming documents and statements that are no configurations, renewing a gathered chain yields exactly the chain gathered over the new publication, whenever that succeeds |
| `TrustChainLifecycle.StatementRenewedAsConfiguration` | src/trust/common/verify-chain.ts:114-119 | in a federation where a statement carries a fetch endpoint of its own, the chain gathered is not what renewing it at once returns |
| `TrustChainLifecycle.RenewalIsIdentity` | src/trust/common/verify-chain.ts:102-154 | with nothing changed, renewal returns the chain itself, with the exact condition |
| `TrustChainLifecycle.BuildTrustChain` | src/trust/common/build-chain.ts:33-91 | succeeds if and only if the anchor has a named first key, the entity is authorized, gathering succeeds and the last token is not empty and verifies under that key; returns the gathered chain |
| `TrustChainLifecycle.ValidWhenVouched` | src/trust/common/verify-chain.ts:209-291 | a well-shaped chain validates if and only if every token is vouched for by the keys of its successor, the last one by the anchor's |
| `TrustChainLifecycle.GatheredSigners` | src/trust/common/verify-chain.ts:209-224 | the tokens of a gathered chain are checked under the keys that the federation vouches for |
| `TrustChainLifecycle.GatheredChainValidates` | src/trust/common/verify-chain.ts:176-294 | at every depth, a gathered chain validates if and only if leaf, statements and top are signed under the vouched keys; the decoded tokens are returned in order |
| `TrustChainLifecycle.VerificationSucceedsWhen` | src/trust/common/verify-chain.ts:72-81 | a valid chain is accepted as it is whatever the network serves; otherwise success means that renewal is on and the renewed chain is valid |
| `TrustChainLifecycle.BuiltChainVerifies` | src/trust/common/verify-chain.ts:59-82 | the chain gathered in a well-signed federation is verified whatever the network serves later, and with a single anchor key it also passes the check that ends building |
| `TrustChainLifecycle.VerificationIsSound` | src/trust/common/verify-chain.ts:59-82 | what verification returns are the decoded tokens of the given or the renewed chain, of the input's length and order, all key sets derivable from the anchor's keys |
| `TrustChainLifecycle.StaleChainHeals` | src/trust/common/verify-chain.ts:72-78 | a chain that no longer validates is verified exactly as the chain one would gather now |
| `Json.IsPathEqual` | src/utils/parser.ts:4-8 | holds exactly for equal paths |
| `Json.IsPrefixOf` | src/utils/parser.ts:12-18 | holds exactly for strict prefixes |
| `IssuerConfig.Displayable` | src/credential/issuance/common/06-verify-and-parse-credential.sdjwt.ts:46-48 | keeps exactly the claims that have a display |
| `IssuerConfig.DisplayableKeepsOrder` | src/credential/issuance/common/06-verify-and-parse-credential.sdjwt.ts:46-48 | and keeps them in order, wherever the list is cut |
| `IssuerConfig.LabelMapKeepsLast` | src/credential/issuance/common/06-verify-and-parse-credential.sdjwt.ts:83-87 | a locale maps to the name of its last label |
| `IssuerConfig.LabelMapLocales` | src/credential/issuance/common/06-verify-and-parse-credential.sdjwt.ts:83-87 | the record has exactly the locales of the labels |
| `SdJwtParser.GetDisplayNames` | src/credential/issuance/common/06-verify-and-parse-credential.sdjwt.ts:77-88 | the loops return the labels of the first claim with the path |
| `SdJwtParser.CollectDeclared` | src/credential/issuance/common/06-verify-and-parse-credential.sdjwt.ts:114-126 | the loop collects the declared keys and indices below a path, by first occurrence and each once |
| `SdJwtParser.DeclaredBelow` | src/credential/issuance/common/06-verify-and-parse-credential.sdjwt.ts:114-126 | holds a segment exactly when some claim's path continues the given one with it |
| `SdJwtParser.ProcessField` | src/credential/issuance/common/06-verify-and-parse-credential.sdjwt.ts:134-146 | builds the entry of a declared field, with the fallback name for arrays |
| `SdJwtParser.ProcessDeclared` | src/credential/issuance/common/06-verify-and-parse-credential.sdjwt.ts:129-149 | after the loop each key holds the entry of the last declared segment spelling it, and the processed set is that of the segments found |
| `SdJwtParser.AddUndefined` | src/credential/issuance/common/06-verify-and-parse-credential.sdjwt.ts:152-161 | copies exactly the fields whose key was not processed, over what was there |
| `SdJwtParser.ProcessLevel` | src/credential/issuance/common/06-verify-and-parse-credential.sdjwt.ts:93-164 | the recursive loops compute the localised tree, for every JSON tree and claim list; what that tree is, is told by `SdJwtLocalisation.Conservation`, `SdJwtNaming.EveryKey` and `SdJwtNaming.CopiedWhereNotFollowed` |
| `SdJwtParser.ParseCredentialSdJwt` | src/credential/issuance/common/06-verify-and-parse-credential.sdjwt.ts:38-167 | fails if and only if the strict check is on and a displayable root is missing, and reports exactly the missing roots; otherwise returns the localised tree |
| `SdJwtLocalisation.Conservation` | src/credential/issuance/common/06-verify-and-parse-credential.sdjwt.ts:93-164 | erasing the wrappers gives back the whole input when undeclared attributes are included, else a part with the same array lengths and leaves, for every tree and claim list |
| `SdJwtLocalisation.SurvivorsAreKept` | src/credential/issuance/common/06-verify-and-parse-credential.sdjwt.ts:93-164 | for every tree and claim list, the surviving positions are those of the input to whose last key the code goes on from key to key, by the last declared segment spelling it |
| `SdJwtLocalisation.RetentionExactly` | src/credential/issuance/common/06-verify-and-parse-credential.sdjwt.ts:93-164 | retention by declared paths holds for all trees and positions if and only if the claim list is harmless: each declared path of keys is followed, each followed path is declared as keys |
| `SdJwtLocalisation.Retention` | src/credential/issuance/common/06-verify-and-parse-credential.sdjwt.ts:93-164 | with undeclared attributes off and paths of strings and `null`, a position survives if and only if it is in the input and its path up to the last key is a prefix of a displayable path |
| `SdJwtLocalisation.NothingLost` | src/credential/issuance/common/06-verify-and-parse-credential.sdjwt.ts:93-164 | with undeclared attributes off the whole input comes back if and only if the code gets to every key of it; with a harmless claim list, if and only if every key is declared |
| `SdJwtLocalisation.TopLevelIsTheRoots` | src/credential/issuance/common/06-verify-and-parse-credential.sdjwt.ts:51-72 | after the strict check the top-level keys are exactly the displayable roots, if and only if every number starting a path and spelling a field spells such a root |
| `SdJwtLocalisation.IndexKeepsUndeclaredField` | src/credential/issuance/common/06-verify-and-parse-credential.sdjwt.ts:113-149 | a claim for index 0 keeps the field "0", whose path no claim declares |
| `SdJwtLocalisation.IndexHidesDeclaredField` | src/credential/issuance/common/06-verify-and-parse-credential.sdjwt.ts:113-149 | behind a claim for a field of "0" it hides that declared field |
| `SdJwtNaming.NameOfIsName` | src/credential/issuance/common/06-verify-and-parse-credential.sdjwt.ts:136-143 | the name computed is the one and only name for a path: the label of the first claim with the path, else for arrays that of the path with `null`, else the key |
| `SdJwtNaming.EveryKey` | src/credential/issuance/common/06-verify-and-parse-credential.sdjwt.ts:98-161 | for both flags, every tree and every key in it, behind whatever array indices: a key the code gets to has the name of the path followed and a processed value, the others are copied under their key or left out |
| `SdJwtNaming.CopiedWhereNotFollowed` | src/credential/issuance/common/06-verify-and-parse-credential.sdjwt.ts:98-161 | for both flags, verbatim copies stand exactly at and below the keys that the code does not get to, and only if undeclared attributes are included |
| `SdJwtNaming.NamesExactly` | src/credential/issuance/common/06-verify-and-parse-credential.sdjwt.ts:136-161 | all names in all credentials are those configured for their places if and only if they are at the places that the claims spell, with undeclared attributes included or not |
| `SdJwtNaming.AttachedNames` | src/credential/issuance/common/06-verify-and-parse-credential.sdjwt.ts:136-146 | in particular for paths of strings and `null`, repeated paths included |
| `SdJwtNaming.ParsedAlikeExactly` | src/credential/issuance/common/06-verify-and-parse-credential.sdjwt.ts:93-164 | two claim lists parse all credentials alike if and only if they process alike the places that their claims spell |
| `SdJwtNaming.ClaimOrderIrrelevant` | src/credential/issuance/common/06-verify-and-parse-credential.sdjwt.ts:113-149 | permuting claims with distinct paths, no two of which part with a number and the key it spells, leaves the parsed credential unchanged |
| `SdJwtNaming.NoIndicesUnambiguous` | src/credential/issuance/common/06-verify-and-parse-credential.sdjwt.ts:113-127 | as paths of strings and `null` never do |
| `SdJwtNaming.IndexLosesName` | src/credential/issuance/common/06-verify-and-parse-credential.sdjwt.ts:148-161 | a claim for index 0 names the field "0" with undeclared attributes off, and not with them included |
| `SdJwtNaming.IndexNamesUndeclaredField` | src/credential/issuance/common/06-verify-and-parse-credential.sdjwt.ts:136-146 | the former is not the name configured for that field |
| `SdJwtNaming.IndexOrderMatters` | src/credential/issuance/common/06-verify-and-parse-credential.sdjwt.ts:113-149 | with a claim for index 0 and one for the key "0" their order decides the name |
| `Decimals.NumeralForm` | src/credential/presentation/common/utils/dcql.ts:118 | indices are spelled with digits only and without leading zeros |
| `Decimals.DistinctNumerals` | src/credential/presentation/common/utils/dcql.ts:118 | and distinctly |
| `PresentationFrame.StraightPath` | src/credential/presentation/common/utils/dcql.ts:126-128 | a path of keys and numbers compiles, whatever the claim, to a frame that discloses what it selects |
| `PresentationFrame.NullFansOut` | src/credential/presentation/common/utils/dcql.ts:114-121 | a `null` before an array compiles to one child per element |
| `PresentationFrame.LeadingNull` | src/credential/presentation/common/utils/dcql.ts:114-124 | a leading `null` throws on `null`, or if the rest of the path does for some element of the array that comes first, and closes the frame if no array does |
| `PresentationFrame.KeysPassOn` | src/credential/presentation/common/utils/dcql.ts:126-128 | keys and numbers throw exactly if the rest of the path does |
| `PresentationFrame.NullOutsideArrayCloses` | src/credential/presentation/common/utils/dcql.ts:114-128 | a `null` whose first claim value is no array closes the frame: it discloses exactly the position that the keys before it spell, whatever follows |
| `PresentationFrame.NullBehindKeysOverDiscloses` | src/credential/presentation/common/utils/dcql.ts:114-128 | behind keys that lead to an array, a `null` whose first claim value is no array discloses every element as a whole, which is more than the path selects if and only if the path goes on and there are elements |
| `PresentationFrame.CompilationDisclosesSelection` | src/credential/presentation/common/utils/dcql.ts:101-129 | for paths (key null)^n then keys and numbers, the frame discloses exactly the positions that the claims path pointer selects |
| `PresentationFrame.CoversBelowDisclosed` | src/credential/presentation/common/utils/dcql.ts:107-111 | a frame covers a position if and only if it discloses it or a position above it |
| `FrameMerging.MergeInto` | src/credential/presentation/common/utils/dcql.ts:160-162 | the loop over a frame's entries, in any order, computes the merge |
| `FrameMerging.MergeKeeps` | src/credential/presentation/common/utils/dcql.ts:159-162 | every covered position stays covered if and only if no closed root is reopened |
| `FrameMerging.FoldKeeps` | src/credential/presentation/common/utils/dcql.ts:151-164 | over all the claims, what is covered after some stays covered after more if and only if no one-segment path comes before a longer one on the same root |
| `FrameMerging.MergeLosesNothing` | src/credential/presentation/common/utils/dcql.ts:151-164 | the merged frame covers all that its frames cover if and only if, on each root, the last frame closes it, or none does and the first second-level children include the others |
| `FrameMerging.NothingMore` | src/credential/presentation/common/utils/dcql.ts:151-164 | whatever the merged frame covers, some frame covers, for every list of frames |
| `FrameMerging.IncludesIsCoverage` | src/credential/presentation/common/utils/dcql.ts:159-162 | comparing two frames as trees tells exactly whether one covers all that the other does |
| `FrameMerging.MergeCoversUnion` | src/credential/presentation/common/utils/dcql.ts:151-164 | the merged frame covers exactly the union of what the frames cover under that same condition, and only then |
| `FrameMerging.AgreeingLoseNothing` | src/credential/presentation/common/utils/dcql.ts:151-164 | frames that are disjoint or agree on the second level lose nothing |
| `FrameMerging.MergeOrderIrrelevant` | src/credential/presentation/common/utils/dcql.ts:151-164 | merging frames that agree on the second level does not depend on the claims' order |
| `FrameMerging.MergeBringsAll` | src/credential/presentation/common/utils/dcql.ts:159-162 | merging one frame brings in all that it covers if and only if the older second-level children include the newer ones as trees |
| `FrameMerging.DeeperSiblingLost` | src/credential/presentation/common/utils/dcql.ts:159-162 | of two siblings on the third level the newer one is lost |
| `FrameMerging.ReopenedRootLost` | src/credential/presentation/common/utils/dcql.ts:159-162 | a root closed and then opened by a longer path loses the rest of it |
| `DcqlDisclosure.DisclosedClaims` | src/credential/presentation/common/utils/dcql.ts:173-192 | with a valid claim set, the disclosed claims are exactly the first valid claims for its indices, in its order |
| `DcqlDisclosure.FoundKeepOrder` | src/credential/presentation/common/utils/dcql.ts:180-188 | wherever the claim set is cut, the front's claims come before the back's |
| `DcqlDisclosure.ValidClaims` | src/credential/presentation/common/utils/dcql.ts:173-192 | without claim sets all valid claims are disclosed, without valid claims or without indices in the set none |
| `DcqlDisclosure.FirstQueryFound` | src/credential/presentation/common/utils/dcql.ts:141-144 | the credential query of a match is the first one with its id |
| `DcqlDisclosure.NothingRequested` | src/credential/presentation/common/utils/dcql.ts:141-146 | without such a query or without claims in it nothing is disclosed |
| `DcqlDisclosure.GetPresentationFrame` | src/credential/presentation/common/utils/dcql.ts:137-165 | the loop fails if and only if some disclosed claim has no path or frame, and otherwise returns the merged frames, or nothing without requested claims |
| `DcqlDisclosure.FrameFailsWhen` | src/credential/presentation/common/utils/dcql.ts:150-158 | building the frame fails if and only if some disclosed claim has no path in the first credential query with the id, or one that does not compile |
| `DcqlDisclosure.ConsentEqualsFrame` | src/credential/presentation/common/utils/dcql.ts:88-93 | with outputs keyed by their path's root, the listed names are exactly the frame's roots |
| `DcqlDisclosure.ListedFromOutputs` | src/credential/presentation/common/utils/dcql.ts:88-93 | claims are listed with exactly the names and values of the disclosed claims' outputs |
| `DcqlDisclosure.ListedKeepOrder` | src/credential/presentation/common/utils/dcql.ts:88-93 | in the order of the disclosed claims |
| `DcqlDisclosure.FrameCoversSelection` | src/credential/presentation/common/utils/dcql.ts:137-165 | for compilable paths, the whole frame covers exactly the positions at or below those that the disclosed claims' paths select, if and only if merging their frames loses nothing |
| `DcqlDisclosure.MatchFrameCoversSelection` | src/credential/presentation/common/utils/dcql.ts:137-165 | end to end, with the paths of the first credential query with the id |
| `DcqlDisclosure.NothingUnselected` | src/credential/presentation/common/utils/dcql.ts:137-165 | and it never covers a position that no disclosed claim's path selects |
| `DcqlDisclosure.GetPresentationFrameFromClaims` | src/credential/presentation/common/utils/mdoc.ts:86-100 | the loop computes the fold of the requested claims under the document type, and fails exactly when that does |
| `DcqlDisclosure.MdocFrameIsTheList` | src/credential/presentation/common/utils/mdoc.ts:86-100 | with non-empty namespaces the frame is always built and is closed at exactly the listed pairs |
| `DcqlDisclosure.FlatFrameIsTheList` | src/credential/presentation/common/utils/mdoc.ts:90-98 | without namespaces the frame is always built and closes exactly the listed names at its root |
| `DcqlDisclosure.MixedFrame` | src/credential/presentation/common/utils/mdoc.ts:90-98 | with claims of both kinds, building fails if and only if a name closed before is opened as a namespace; otherwise exactly the names without a namespace are closed |
| `DcqlDisclosure.OpenRoots` | src/credential/presentation/common/utils/mdoc.ts:90-98 | and the namespaces left open hold exactly the names listed in them |
| `DcqlDisclosure.ElementsListed` | src/credential/presentation/common/utils/mdoc.ts:66-77 | a pair is listed if and only if some disclosed claim's output holds it |
| `DcqlDisclosure.ElementsFromOutputs` | src/credential/presentation/common/utils/mdoc.ts:66-77 | elements are listed with exactly the values that the outputs hold under namespace and name |
| `DcqlDisclosure.ElementsKeepOrder` | src/credential/presentation/common/utils/mdoc.ts:66-77 | in the order of the disclosed claims |
| `DcqlDisclosure.NamespacesKeepOrder` | src/credential/presentation/common/utils/mdoc.ts:66-77 | and of the namespaces of an output |
| `DcqlDisclosure.MdocFrameDiscloses` | src/credential/presentation/common/utils/mdoc.ts:66-100 | the frame discloses an element if and only if some disclosed claim's output holds it |
| `DcqlEvaluation.IndexHoldsLast` | src/credential/presentation/v1.3.3/06-evaluate-dcql-query.ts:27-33 | under an identifier the dictionary holds the last credential listed with it |
| `DcqlEvaluation.SuccessfulKeepOrder` | src/credential/presentation/v1.3.3/06-evaluate-dcql-query.ts:48 | successful matches keep their order, wherever the list is cut |
| `DcqlEvaluation.PurposesOfNamingSets` | src/credential/presentation/v1.3.3/06-evaluate-dcql-query.ts:49-54 | the purposes are those of the credential sets that name the id in a matching option |
| `DcqlEvaluation.PurposesKeepOrder` | src/credential/presentation/v1.3.3/06-evaluate-dcql-query.ts:49-54 | and are in the order of the sets, wherever the list is cut |
| `DcqlEvaluation.PurposesOfSets` | src/credential/presentation/v1.3.3/06-evaluate-dcql-query.ts:49-54 | there is one purpose for each credential set naming the id, in the order of the sets, with its description and whether it is required |
| `DcqlEvaluation.VersionsAgree` | src/credential/presentation/v1.0.0/06-evaluate-dcql-query.ts:22-94 | on SD-JWT credentials, whenever version 1.3.3 answers, version 1.0.0 gives the same answer |
| `DcqlEvaluation.LegacyEvaluates` | src/credential/presentation/v1.0.0/06-evaluate-dcql-query.ts:58-86 | the older version evaluates a legacy SD-JWT that reports its vct as any SD-JWT, but for the format |
| `DcqlEvaluation.OlderEvaluationSucceeds` | src/credential/presentation/v1.0.0/06-evaluate-dcql-query.ts:42-92 | the older version succeeds if and only if the query can be satisfied and every successful match can be evaluated, and has their results in order |
| `DcqlEvaluation.MatchCarriesCredential` | src/credential/presentation/v1.3.3/06-evaluate-dcql-query.ts:56-114 | a result carries format of the first valid match, credential and key tag of the last one listed with the matched identifier, which is the matched one itself if identifiers are distinct, and the purposes of the sets naming its id, or that it is required if there are no credential sets |
| `DcqlEvaluation.LookupsSucceed` | src/credential/presentation/v1.3.3/06-evaluate-dcql-query.ts:59-95 | if the query engine reports its inputs' identifiers, no lookup misses |
| `DcqlEvaluation.EvaluationSucceeds` | src/credential/presentation/v1.3.3/06-evaluate-dcql-query.ts:42-119 | evaluation succeeds if and only if the query can be satisfied and the first valid credential of every successful match is a stored SD-JWT or mdoc whose frame can be built; results are in order |
| `DcqlEvaluation.SdJwtConsentIsDisclosed` | src/credential/presentation/v1.3.3/06-evaluate-dcql-query.ts:58-86 | an evaluated SD-JWT match lists exactly the roots of its frame |
| `DcqlEvaluation.MdocConsentIsDisclosed` | src/credential/presentation/v1.3.3/06-evaluate-dcql-query.ts:88-114 | an evaluated mdoc match lists exactly the elements its frame discloses under the document type |
| `DcqlEvaluation.GroupTokens` | src/credential/presentation/v1.3.3/07-send-authorization-response.ts:129-135 | the pushing loop leaves under each id exactly its tokens in order |
| `DcqlEvaluation.NoTokenLost` | src/credential/presentation/v1.3.3/07-send-authorization-response.ts:129-135 | an id's group holds each token as often as it was presented for that id |
| `DcqlEvaluation.TokensKeepOrder` | src/credential/presentation/v1.3.3/07-send-authorization-response.ts:129-135 | an id's group keeps the order of the presentations |
| `DcqlEvaluation.OverwritingKeepsLast` | src/credential/presentation/v1.0.0/07-send-authorization-response.ts:133-139 | the overwriting map holds the last token of each group |
| `DcqlEvaluation.TokenMapsAgree` | src/credential/presentation/v1.0.0/07-send-authorization-response.ts:133-139 | the two token maps hold the same tokens if and only if no id is presented twice |
| `DcqlEvaluation.ResponseHasOneTokenPerResult` | src/credential/presentation/v1.3.3/07-send-authorization-response.ts:43-135 | result ids are those of the successful matches, in order and distinct, so each id has exactly its result's token, in both versions |
| `MdocParser.FlatListIsComplete` | src/credential/issuance/common/06-verify-and-parse-credential.mdoc.ts:104-111 | the flat list holds exactly the elements of all namespaces |
| `MdocParser.FlatListKeepsOrder` | src/credential/issuance/common/06-verify-and-parse-credential.mdoc.ts:104-111 | in the order of the namespaces, wherever the list is cut |
| `MdocParser.NotInDisclosures` | src/credential/issuance/common/06-verify-and-parse-credential.mdoc.ts:115-121 | holds exactly the definitions for which there is no element |
| `MdocParser.MissingKeepOrder` | src/credential/issuance/common/06-verify-and-parse-credential.mdoc.ts:115-121 | in the order of the configuration, wherever the list is cut |
| `MdocParser.KeysAreInjective` | src/mdoc/utils.ts:14-15 | with colon-free namespaces a key determines namespace and identifier |
| `MdocParser.ColonFreeKeysTellApart` | src/mdoc/utils.ts:14-15 | so with unique pairs no two different elements share a key |
| `MdocParser.ParsingIsAPartition` | src/credential/issuance/common/06-verify-and-parse-credential.mdoc.ts:88-192 | fails if and only if some displayable claim has no element at its path's first two segments and that is not ignored; nothing but elements appears; when no two elements share a key, declared ones have the locale map of the last claim declaring them and their value, and all others are under their identifier if and only if undeclared ones are included |
| `MdocParser.AbsentClaims` | src/credential/issuance/common/06-verify-and-parse-credential.mdoc.ts:115-121 | the attributes reported missing are exactly the displayable claims without an element |
| `MdocParser.ParsingErrors` | src/credential/issuance/common/06-verify-and-parse-credential.mdoc.ts:80-136 | the error tells a missing configuration, missing namespaces, or the missing attributes |
| `MdocParser.LastDefinedWins` | src/credential/issuance/common/06-verify-and-parse-credential.mdoc.ts:141-175 | even when keys collide, a key shows the last definition that finds an element with it |
| `MdocParser.LastUndefinedWins` | src/credential/issuance/common/06-verify-and-parse-credential.mdoc.ts:178-191 | and among undeclared elements the last one with the key |
| `MdocParser.ShownWhenToldApart` | src/credential/issuance/common/06-verify-and-parse-credential.mdoc.ts:88-192 | every element has that place under all configurations if and only if no two different elements share a key |
| `MdocParser.ColonsCollide` | src/mdoc/utils.ts:14-15 | two elements of a document with colons in a namespace share a key |
| `MdocParser.LookupsAgree` | src/mdoc/utils.ts:25-57 | if one identifier ends in `verification`, both lookups agree, for any key order, if and only if its value is empty, or it is named `verification` exactly if undeclared attributes are included or some displayable claim declares it |
| `MdocParser.FirstKeyFound` | src/mdoc/utils.ts:25-37 | the first listed key with the suffix decides, an empty value counts as none |
| `MdocParser.FirstElementFound` | src/mdoc/utils.ts:46-57 | the first element with the name decides, an empty value counts as none |
| `MdocParser.HiddenVerification` | src/mdoc/utils.ts:25-57 | an element without a display is found in the document and not in the parsed credential |
| `MdocParser.SuffixTaken` | src/mdoc/utils.ts:25-57 | another element with the suffix is found in the parsed credential and not in the document |
| `Collections.KeyBy` | src/utils/object.ts:4-8 | the map holds under each key the last item with it, as a scan finds |
| `Collections.LastWithAt` | src/utils/object.ts:4-8 | that scan finds the last item with the key |
| `Collections.GroupBy` | src/utils/object.ts:10-15 | the map holds under each key the items with it in order, as a scan finds, and no empty bucket |
| `Collections.BucketsPartition` | src/utils/object.ts:10-15 | an item is in its key's bucket as often as in the list, and in no other |
| `Collections.BucketsKeepOrder` | src/utils/object.ts:10-15 | the bucket of a list is that of its front followed by that of its back, wherever it is cut |
| `CredentialsCatalogue.FindCapability` | src/credentials-catalogue/v1.3.3/mappers.ts:54-56 | finds the first capability of the data set if there is one |
| `CredentialsCatalogue.Underscored` | src/credentials-catalogue/v1.3.3/mappers.ts:75 | replaces every plus and minus, and nothing else, by an underscore |
| `CredentialsCatalogue.IndexesEqualScans` | src/credentials-catalogue/v1.3.3/mappers.ts:43-95 | going through the indexes joins a credential as scanning both registries does, member by member, and succeeds exactly when scanning would: formats from the schemas of its type in order, sources from the last one registered under each id, user information from its first capability of the data set |
| `CredentialsCatalogue.MapToCredentialsCatalogue` | src/credentials-catalogue/v1.3.3/mappers.ts:34-96 | succeeds if and only if every type has a schema and every source id is registered; one joined result per credential, in order |
| `Translations.TranslationJobs.Receive` | src/credentials-catalogue/v1.3.3/fetch-translations.ts:14-24 | an answered fetch is one receiving step and keeps the invariant |
| `Translations.TranslationJobs.Finish` | src/credentials-catalogue/v1.3.3/fetch-translations.ts:26-31 | merging and writing the shared record is one finishing step and keeps the invariant |
| `Translations.MergeIsTranslation` | src/credentials-catalogue/v1.3.3/fetch-translations.ts:26 | the spread of the three bundles is, key by key, the taxonomy over the authentic sources over the catalogue |
| `Translations.FetchableWhenAnswered` | src/credentials-catalogue/v1.3.3/fetch-translations.ts:14-24 | a locale can be fetched if and only if every source that is configured and has it answers for its base URI |
| `Translations.TranslationIsOffered` | src/credentials-catalogue/v1.3.3/fetch-translations.ts:14-26 | the translation of a key is what the taxonomy answers for it, else the authentic sources, else the catalogue; a source without the locale contributes nothing |
| `Translations.EveryRunKeepsInv` | src/credentials-catalogue/v1.3.3/fetch-translations.ts:12-33 | in every interleaving and at every step the record holds exactly the translations of the locales written so far |
| `Translations.RunsAreConfluent` | src/credentials-catalogue/v1.3.3/fetch-translations.ts:10-35 | every complete interleaving, repeated locales included, ends with the declared record, which has a locale if and only if its merge is non-empty |
| `Translations.FetchTranslations` | src/credentials-catalogue/v1.3.3/fetch-translations.ts:5-36 | under an arbitrary schedule it ends, succeeds if and only if every needed bundle can be fetched, and returns the declared record |
| `Obfuscation.ObfuscateString` | src/utils/string.ts:16-45 | overwriting in place yields the string masked at the first positions of the shuffle |
| `Obfuscation.CharsToObfuscate` | src/utils/string.ts:25-29 | the count is the largest one that is not above the clamped share of the length |
| `Obfuscation.ShareOfLength` | src/utils/string.ts:25-29 | between 0 and 100 percent the count is the rounded down share, below nothing, above everything |
| `Obfuscation.MaskedAt` | src/utils/string.ts:40-44 | with a one-unit mask the length is kept, hidden positions show the mask, all others their character |
| `Obfuscation.MaskedLength` | src/utils/string.ts:40-44 | with a mask of any length each hidden character adds the mask's length less its own |
| `Obfuscation.ExactlySoManyHidden` | src/utils/string.ts:26-42 | for any permutation exactly the computed number of distinct positions is hidden |
| `Obfuscation.CountIsMonotone` | src/utils/string.ts:26-29 | a higher percentage hides no fewer characters |
| `Obfuscation.AllHiddenFromHundred` | src/utils/string.ts:26-29 | a non-empty string is hidden entirely if and only if the percentage is at least 100 |
| `SdJwtToken.TildeAdded` | src/utils/credentials.ts:45-52 | told from the characters: a token gains a tilde exactly when its last segment has other than two dots and does not follow a tilde empty |
| `SdJwtToken.SegmentsKept` | src/utils/credentials.ts:45-52 | normalising changes no segment and adds at most one empty last one, exactly when the token ends neither in a tilde nor in a JWT |
| `SdJwtToken.NormaliserIsIdempotent` | src/utils/credentials.ts:45-52 | normalising twice is normalising once |
| `SdJwtToken.NormalisedEnd` | src/utils/credentials.ts:45-52 | the result ends in a tilde or a three-part segment, in a tilde exactly when the token did or had no such segment at its end |
| `SdJwtToken.HashedPrefixKept` | src/utils/misc.ts:75-83 | the hashed prefix is untouched; a token without one gains one exactly when it is not a bare JWT |
| `SdJwtToken.HashedPrefixIs` | src/utils/misc.ts:75-83 | the hashed prefix is what stands before the first tilde, if there is one |
| `SdJwtToken.BareJwt` | src/utils/credentials.ts:45-52 | a bare JWT is left alone and has no hashed prefix |
| `SdJwtToken.VpTokenIsNormalised` | src/sd-jwt/index.ts:51-84 | a tilde-terminated presentation followed by a key binding JWT is left alone by the normaliser and keeps the presentation's segments before that JWT |

## Left out

- HTTP, URL composition, timeouts, logging, hashing, signing, decoding and certificate validation: foreign code, here functions that answer.
- A federation that changes between two fetches of one gathering or renewal: one publication answers all fetches of one traversal.
- The claims `verify` returns are taken to be those the decoder reads from the same token.
- Which of several failing tokens of a chain is reported: validation here reports the one with the lowest index, the code the one that is rejected first.
- Shape schemas beyond the distinction of configurations and statements: shapes are predicates, and versions later than 1.0.0 configure none of their own.
- TrustChainLifecycle.RenewalRebuilds: says nothing when gathering over the new publication fails, because renewal checks fewer shapes than gathering and may still succeed.
- Property order and prototype properties of JavaScript objects: results are maps; where the code takes the first value of an object, the enumeration order is part of the value.
- Path segments that are numbers but not integers.
- PresentationFrame.CompilationDisclosesSelection: does not cover a `null` behind a number, another `null` or more than one key; for those without a further `null` to the left, `PresentationFrame.NullBehindKeysOverDiscloses` says what is disclosed.
- Outputs of an mdoc match that are not objects of objects; the query engine does not produce them.
- The query engine itself, its failure details and the mapping of its errors; results for unsatisfiable queries are one error.
- The output schema of the catalogue and the members it copies unchanged, which are one opaque `rest`.
- Cancelling after a rejected fetch: the other callbacks may still write, but the record is not returned.
- Rounding of floating-point percentages: the share of hidden characters is computed over the reals, and the random sort is any permutation.
- Issuance, offer, status, wallet instance and attestation flows: sequences of calls to outside services.
