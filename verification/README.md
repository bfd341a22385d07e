# Jeju: verified models of the deployment and operations logic

Dafny models of the self-contained algorithms and state machines in the Jeju repository, with proofs about every
input and every run. One module per component; `dafny verify dfyconfig.toml` checks them all.

| module | models |
|---|---|
| `Digits`, `Base58`, `Contenthash` | the in-place Base58 decoder, the CIDv0 check and the contenthash hex output of `scripts/deploy-app.ts` |
| `Text`, `Names`, `Namehash` | the JNS validator, suffix handling, iterative namehash and registry set-up (`packages/types/names.ts`, `scripts/deploy/jns.ts`, `JNSRegistry.sol`) |
| `ComposeFile`, `UpdateManager` | the compose-file rewrite and the auto-update transaction of `scripts/auto-update/update-manager.ts` |
| `TokenAccumulator` | the rate-limited bridging loop of `scripts/token-accumulator.ts` |
| `OracleConfig` | the reconcile loops of `scripts/configure-oracle-attesters.ts` |
| `AuditParser` | the streaming parser of `scripts/check-vendor-security.ts` |
| `TestnetDeployment` | the step machine of `scripts/deploy/testnet-full.ts` |
| `AgentRegistry` | the once-only registration of `scripts/register-agents.ts` |
| `Modular`, `Interpolation`, `KeyShares` | Shamir sharing, Lagrange reconstruction and rotation of keys (`packages/shared/src/crypto/mpc-custody.ts`) |
| `ConfigLookup`, `DeploymentFiles` | environment keys and deployment-file merge (`packages/config/index.ts`, `packages/config/network.ts`) |

Code that changes state is a class or a method with loops, proved against specification functions or relations; code
made of expressions is a function. Commands, network calls and clocks are parameters that may take any value: a
theorem about `Outcomes`, `Check`, `Calls`, `Fate`, `Fates`, `Offer` or a save flag is about every pattern of failures. A
transaction (`Transactions.Fate`) may be confirmed, may throw without effect, or may take effect and then throw while
the script waits for it.

## Assumptions

- Keccak-256 and UTF-8 are arbitrary functions. Injectivity of the namehash assumes that UTF-8 is injective and that
  Keccak-256 has no collision and no zero output on the finitely many byte strings hashed for the names compared
  (`CollisionFree`); nothing is assumed about other inputs.
- Single-file writes and copies are atomic.
- `TokenAccumulator`: checks of a run do not overlap (the script starts them with `setInterval` and does not enforce
  this); any of them may throw anywhere. The bounds take the greatest delay between a check's timestamp and its cooldown
  tests as a parameter, and hold for runs in which no check throws after sending to the network concerned:
  `CooldownKeptExactly` shows that these are exactly the runs that keep the cooldown.
- `UpdateManager`: in a run each check that updates has a backup directory of its own. `AllOrNothing` needs no such
  assumption and says exactly what a re-used directory can do. The theorems about old backups take `ls -1t` to list
  newest first, and `LastUpdateCanBeUndone` takes the clock to run forward.
- `OracleConfig`: the deployment object has decimal keys, each once. That alone rules out a chain listed with two
  settlers, on which a pass over an arbitrary list would not converge (`PassConverges`, `WantsConsistent`). Over a run of
  passes nobody else changes the wanted entries, and a transaction that takes effect does so before the next read.
- `AgentRegistry`: passes do not overlap. `RegisteredOnce` is about runs in which no pass registers an app and then fails
  to save; `NeverAgainExactly` shows that these are exactly the runs that cannot register twice.
- `KeyShares`: the modulus is prime (for `PRIME`, the order of secp256k1, this is a hypothesis and not proved), and there
  are fewer holders than the modulus. Encryption of shares is the identity, as encrypting and decrypting undo each other.

## Where the code differs from its documentation

- The Base58 buffer starts as one zero cell, so the empty string and strings of '1' decode to one zero byte more than
  draft-msporny-base58 gives (`DecoderMeetsDraft`, `DecodeThenEncode`, `EncodeThenDecode` are if-and-only-if). The script
  itself never reaches this case: it decodes only strings that start with "Qm", on which decoder and draft agree.
- The contenthash prefix is `e3 01 70`, whose second part is not the varint of EIP-1577; the model has the code's layout.
- The namehash agrees with the reference program of EIP-137 exactly on names without a dot at their end (`AgreesWithEip`).
- `parseJNSName` removes the first ".jeju", not the last (`ParseAfterFormat`, `ParseLosesInnerSuffix`).
- The fourth alternative of the audit header pattern, `^`, is an anchor: lines with caret ranges are never headers
  (`CaretRangeIsNoHeader`).
- Environment keys are faithful exactly for names that do not start with a capital (`EnvKeyFaithful`); two names share
  a key exactly when they are equal up to the case of the first letter (`EnvKeyShared`).
- An override by a VITE_ or NEXT_PUBLIC_ key is meant for the contract named in the call, but these keys carry no
  category: every category's contract of that name is replaced (`ViteOverride`, `NextOverride`, `SharedName`).
  `contracts.json` has a `registry` under both `jns` and `compute`.
- Apps are meant to be registered once, but a pass whose save throws leaves no trace of what it registered, and the next
  pass registers it again (`NeverAgainExactly`).
- The bridging cooldown of 30 minutes is kept exactly for bridges whose check goes on to save its state; after one that
  throws, the next check can bridge again at once (`CooldownExactly`, `AbortedCheckForgetsBridge`).

## Model

| member | source | states |
|---|---|---|
| Base58.MultiplyCells | scripts/deploy-app.ts:229-234 | the inner loop multiplies the buffer's value by 58 and adds the digit, every cell stays below 256, the carry out is at most 57 |
| Base58.MultiplyAdd | scripts/deploy-app.ts:223-240 | one character: value becomes old * 58 + digit, at most one cell is put in front, the first cell is not zero unless the buffer is the single cell 0 |
| Base58.PadLeadingOnes | scripts/deploy-app.ts:242-250 | as many zero bytes as leading '1's, then the cells |
| Base58.Decode | scripts/deploy-app.ts:221-251 | the loops return the arithmetic meaning of the string, or the first character outside the alphabet |
| Base58.AlphabetIncreases | scripts/deploy-app.ts:219 | the alphabet has 58 characters in strictly increasing order |
| Base58.AlphabetExactly | scripts/deploy-app.ts:219 | the alphabet holds exactly the numerals and letters other than 0, O, I and l |
| Base58.FirstInvalidExactly | scripts/deploy-app.ts:223-227 | the character complained about is the first one outside the alphabet |
| Base58.DraftEncodeThenDecode | scripts/deploy-app.ts:219-251 | the draft's decoder undoes its encoder on every byte string |
| Base58.DraftDecodeThenEncode | scripts/deploy-app.ts:219-251 | the draft's encoder undoes its decoder on every alphabet string |
| Base58.DecoderMeetsDraft | scripts/deploy-app.ts:222-250 | the source's decoder agrees with the draft exactly on strings with a character other than '1', and gives one more zero byte on the others |
| Base58.DecodeThenEncode | scripts/deploy-app.ts:221-251 | encoding the decoded bytes gives the string back exactly when some character is not '1' |
| Base58.EncodeThenDecode | scripts/deploy-app.ts:221-251 | decoding an encoded byte string gives it back exactly when some byte is not zero |
| Base58.DecoderInjective | scripts/deploy-app.ts:221-251 | no two alphabet strings decode to the same bytes |
| Digits.NumeralUnique | scripts/deploy-app.ts:230-239 | a numeral without leading zeros is determined by its value |
| Digits.TranscodeInverse | scripts/deploy-app.ts:222-250 | changing base and back is the identity, leading zeros included |
| Contenthash.MultihashRange | scripts/deploy-app.ts:253-262 | every sha2-256 multihash has a value between 1378 * 58^44 and 1379 * 58^44 |
| Contenthash.MultihashBase58 | scripts/deploy-app.ts:253-262 | the Base58 form of every sha2-256 multihash has 46 characters and starts "Qm" |
| Contenthash.FromMultihash | scripts/deploy-app.ts:260-270 | the check accepts exactly 34-byte 0x12 0x20 multihashes; the output is "0x" and the hex of prefix and multihash |
| Contenthash.EncodeIPFSContenthash | scripts/deploy-app.ts:218-274 | the result or the error for every string, in terms of which strings are Base58 forms of multihashes |
| Contenthash.AcceptsExactlyCidV0 | scripts/deploy-app.ts:253-262 | a string is accepted if and only if it is the Base58 form of a sha2-256 multihash, and then that multihash is encoded |
| Contenthash.RejectedExactly | scripts/deploy-app.ts:253-273 | which strings are rejected as unsupported, as CIDv1, and as having no multihash |
| Contenthash.RejectedCharacter | scripts/deploy-app.ts:223-227 | which strings are rejected for a character, and for which |
| Contenthash.ContenthashText | scripts/deploy-app.ts:264-270 | a contenthash is the text "0xe30170" and then the hex of the multihash |
| Contenthash.ContenthashInvertible | scripts/deploy-app.ts:257-271 | an accepted CID has 46 characters; its contenthash is "0x" and 74 hex digits, from which the CID is recovered |
| Contenthash.ContenthashInjective | scripts/deploy-app.ts:257-271 | distinct CIDs never share a contenthash |
| Contenthash.UnhexHex | scripts/deploy-app.ts:270 | the hex output has two lower-case digits per byte and can be read back |
| Names.PatternMeaning | packages/types/names.ts:298 | the pattern's match relation holds exactly of non-empty strings of letters, digits and hyphens without a hyphen at either end |
| Names.ValidatorMeaning | packages/types/names.ts:291-309 | accepted names are exactly those of length at least 3 that are alphanumeric tokens joined by single hyphens |
| Names.RejectedExactly | packages/types/names.ts:291-309 | the length counts first, then the characters and ends, then a double hyphen |
| Names.LengthAppend | packages/types/names.ts:293 | a character outside the basic plane counts as two in the length |
| Names.CommutesWithSuffix | packages/types/names.ts:316-327 | a string commutes with ".jeju" exactly when it is ".jeju" repeated |
| Names.ParseRemovesFirst | packages/types/names.ts:325-327 | a name without ".jeju" stays, and otherwise exactly its first occurrence goes |
| Names.ParseAfterFormat | packages/types/names.ts:316-327 | parse(format(label)) = label if and only if the label from the first ".jeju" on is ".jeju" repeated |
| Names.ValidLabelRoundTrip | packages/types/names.ts:291-327 | every label the validator accepts has no dot and survives formatting and parsing |
| Names.ParseLosesInnerSuffix | packages/types/names.ts:325-327 | a label that contains the suffix is not restored |
| Namehash.Namehash | scripts/deploy/jns.ts:90-102 | the loop computes the recursive definition on the label list, for every name |
| Namehash.NamehashUnder | scripts/deploy/jns.ts:90-102 | the hash of a name under a non-empty parent continues the fold from the parent's node |
| Namehash.RegisteredNode | scripts/deploy/jns.ts:156-178 | for every accepted label the node of its full name is the subnode of "jeju" at its label hash |
| Namehash.NamehashInjective | scripts/deploy/jns.ts:90-102 | names with equal nodes are equal, given no Keccak collision or zero among the inputs hashed for them |
| Namehash.EipWithoutTrailingDot | scripts/deploy/jns.ts:89-102 | without a dot at the end the source computes what EIP-137's reference program does |
| Namehash.AgreesWithEip | scripts/deploy/jns.ts:89-102 | source and reference program agree if and only if the name has no dot at its end |
| Namehash.Registry.SetSubnodeOwner | packages/contracts/src/names/JNSRegistry.sol:50-54 | only the node's owner and the operators it approved set a subnode's owner, and nothing else changes; a confirmed transaction returns, one that throws may still have taken effect |
| Namehash.Registry.SetApprovalForAll | packages/contracts/src/names/JNSRegistry.sol:149-152 | an approval changes who may act for exactly the nodes of the caller, and only for that operator |
| Namehash.SetUpRegistry | scripts/deploy/jns.ts:156-178 | the set-up goes through exactly when the wallet may act for the root and all three transactions are confirmed; it sets exactly the three owners at the nodes namehash gives, or those of the transactions that took effect before or in the first throw |
| ComposeFile.ReplaceChangesOnlyTheTag | scripts/auto-update/update-manager.ts:184-193 | a replacement changes only the version tag of the first match, the tag being the longest run, or nothing |
| ComposeFile.FirstTagRewritten | scripts/auto-update/update-manager.ts:184-193 | a text with the image, a v and a run of digits and dots, and no such place before, gets the new tag there and keeps the rest |
| ComposeFile.NothingRewritten | scripts/auto-update/update-manager.ts:184-193 | a text in which the image stands nowhere with such a tag stays |
| ComposeFile.ExpandSpecial | scripts/auto-update/update-manager.ts:184-193 | what the dollar pairs of a replacement text stand for |
| ComposeFile.ExpandOther | scripts/auto-update/update-manager.ts:184-193 | a dollar before any other character is kept |
| ComposeFile.CutAfterReplace | scripts/auto-update/update-manager.ts:184-193 | after a replacement the same place is matched again, with the new tag |
| ComposeFile.LastReplaceWins | scripts/auto-update/update-manager.ts:184-193 | for tags v[0-9.]+ the last replacement wins, so replacing is idempotent |
| ComposeFile.ReplacementsCommute | scripts/auto-update/update-manager.ts:183-193 | replacements for image names that cannot overlap commute on every text |
| ComposeFile.ComposeImagesIndependent | scripts/auto-update/update-manager.ts:185-192 | the op-reth and op-node image names cannot overlap in any text |
| ComposeFile.ComposeReplacementsCommute | scripts/auto-update/update-manager.ts:183-193 | the two replacements, each with its image and its tag, commute on every file text |
| ComposeFile.LastUpdateWins | scripts/auto-update/update-manager.ts:176-202 | the last rewrite of the whole file wins over earlier ones |
| UpdateManager.Host.BackupCurrentState | scripts/auto-update/update-manager.ts:116-137 | what the backup directory holds afterwards for every outcome of its three commands |
| UpdateManager.BackupHolds | scripts/auto-update/update-manager.ts:116-137 | the other directories stay, and this one holds the compose file, the version file if it was copied, and the time of the last file that came in |
| UpdateManager.Host.RewriteCompose | scripts/auto-update/update-manager.ts:176-202 | the compose file is rewritten, or left alone when reading or writing throws |
| UpdateManager.Host.RestartServices | scripts/auto-update/update-manager.ts:204-227 | throws unless both commands go through and the printed table has neither "unhealthy" nor "Exit"; what the services run with |
| UpdateManager.HealthyMeaning | scripts/auto-update/update-manager.ts:218-220 | a restart is healthy exactly when its table is printed and shows neither "unhealthy" nor "Exit" anywhere |
| UpdateManager.Host.CleanOldBackups | scripts/auto-update/update-manager.ts:139-155 | removes the listing's entries after the third up to the first failing removal |
| UpdateManager.RemovedExactly | scripts/auto-update/update-manager.ts:139-155 | exactly the listed entries after the third go, as many as removals go through, and none without a listing |
| UpdateManager.CommitKeepsNewest | scripts/auto-update/update-manager.ts:139-155 | the clean-up of a committed update keeps the three newest backups, removes only backups at most as new as three that stay, and leaves no other unless a removal fails |
| UpdateManager.BackupsGoOnlyWhenOld | scripts/auto-update/update-manager.ts:139-155 | over any run a backup never changes, and goes only in a check that succeeded and left three at least as new |
| UpdateManager.LastUpdateCanBeUndone | scripts/auto-update/update-manager.ts:116-155 | over any run, until the next success, a backup holding the files from before the last successful update is there |
| UpdateManager.Host.Rollback | scripts/auto-update/update-manager.ts:259-279 | restores compose and version files from the backup as far as its commands succeed |
| UpdateManager.Host.PerformUpdate | scripts/auto-update/update-manager.ts:281-329 | the whole new state and normal return or throw, for every pattern of outcomes |
| UpdateManager.AllOrNothing | scripts/auto-update/update-manager.ts:281-329 | return means rewritten and recorded; a throw leaves each of the two files as before exactly unless the stated exception holds |
| UpdateManager.CommitsExactly | scripts/auto-update/update-manager.ts:281-312 | an update commits exactly when every command goes through, the printed table shows neither "unhealthy" nor "Exit", and the node answers |
| UpdateManager.RunningWhenThrown | scripts/auto-update/update-manager.ts:204-329 | what the services run with after a throw, for every place of it |
| UpdateManager.Host.CheckForUpdates | scripts/auto-update/update-manager.ts:333-372 | one check updates exactly when a newer release is known and auto-update is on, else changes nothing |
| UpdateManager.AttemptsExactly | scripts/auto-update/update-manager.ts:87-93 | a check updates exactly when it may, knows a release, and has no readable version or one recorded earlier than the release |
| UpdateManager.CheckKeepsTime | scripts/auto-update/update-manager.ts:87-93 | one check never lowers the recorded time, raises it on success, and changes the version only when verified |
| UpdateManager.RecordedTimeNeverFalls | scripts/auto-update/update-manager.ts:333-372 | over any run the recorded timestamp never decreases |
| UpdateManager.RecordedTimeGrows | scripts/auto-update/update-manager.ts:333-372 | over any run it strictly increases across each success from a recorded version |
| UpdateManager.VersionChangesOnlyOnSuccess | scripts/auto-update/update-manager.ts:302-312 | over any run the version file changes only in a check whose verification returned true |
| UpdateManager.ComposeNeverDrifts | scripts/auto-update/update-manager.ts:176-202 | over any run, failed rollbacks included, the compose file is the original or the original rewritten once |
| TokenAccumulator.SentMeaning | scripts/token-accumulator.ts:254-265 | a selected network is sent to exactly when all before it were confirmed and sending to it does not throw |
| TokenAccumulator.SentExactly | scripts/token-accumulator.ts:199-261 | a check sends to exactly the rollups below 0.01 ETH, not bridged to for 30 minutes, while Sepolia has more than 0.08 ETH, up to the first throw in the order Arbitrum, Optimism, Base |
| TokenAccumulator.CompletesExactly | scripts/token-accumulator.ts:208-274 | a check comes to its end exactly when it gets the balances, the transactions for all such rollups are confirmed, and its state is saved |
| TokenAccumulator.BridgeNeedy | scripts/token-accumulator.ts:254-265 | the loop sends to the networks below target and past their cooldown, in order, up to the first throw, and to the throwing one if only the waiting threw |
| TokenAccumulator.Accumulator.RunAccumulator | scripts/token-accumulator.ts:212-274 | the new state file and the networks sent to, for every place where the check can throw, saving included |
| TokenAccumulator.LastBridgeNext | scripts/token-accumulator.ts:254-274 | a completed check that sends to a network records its own start for it, and otherwise what is recorded for it stays |
| TokenAccumulator.BridgesAreSpaced | scripts/token-accumulator.ts:199-206 | over any run without a check that throws after sending to the network, successive bridges are more than the cooldown minus the delay apart |
| TokenAccumulator.BridgesPerWindow | scripts/token-accumulator.ts:199-274 | over such a run any window of length W holds at most W/(30 min - L) + 1 bridges to the network |
| TokenAccumulator.SpentIsBridges | scripts/token-accumulator.ts:259-261 | each bridge sends 0.03 ETH |
| TokenAccumulator.SpentPerWindow | scripts/token-accumulator.ts:254-265 | if that holds for all three networks, at most 0.09 ETH times that is bridged in it |
| TokenAccumulator.HistoryIsLastSamples | scripts/token-accumulator.ts:234-243 | over any run the saved history is the last at most 100 samples of completed checks, in order |
| TokenAccumulator.LastCheckIsRecorded | scripts/token-accumulator.ts:273-274 | the recorded time is that of the last check that completes |
| TokenAccumulator.CooldownExactly | scripts/token-accumulator.ts:254-274 | after a bridge, every possible later check keeps the cooldown if and only if the check that bridged completes |
| TokenAccumulator.CooldownKeptExactly | scripts/token-accumulator.ts:254-274 | the runs that keep the cooldown are exactly those in which no check throws after sending to the network |
| TokenAccumulator.AbortedCheckForgetsBridge | scripts/token-accumulator.ts:254-274 | after any check that throws after sending to a network there is a check one millisecond later that completes and sends to it again |
| TokenAccumulator.ChecksCanLoseBridges | scripts/token-accumulator.ts:254-274 | such a check exists |
| OracleConfig.Oracle.Reconcile | scripts/configure-oracle-attesters.ts:145-150 | read, compare, write only if different, or throw: at the read, at the sending, or at the waiting with the write done |
| OracleConfig.Oracle.ConfigureAttesters | scripts/configure-oracle-attesters.ts:96-115 | the simple oracle's loop, and the attester loop of the other two, is a pass over the wanted attesters |
| OracleConfig.Oracle.ConfigureChain | scripts/configure-oracle-attesters.ts:138-163 | the body of the chain loops applies exactly the wanted entries of that chain |
| OracleConfig.Oracle.ConfigureOracle | scripts/configure-oracle-attesters.ts:117-213 | the Hyperlane and Superchain loops are a pass over their wanted entries, whatever becomes of each read and transaction |
| OracleConfig.PassIsMinimal | scripts/configure-oracle-attesters.ts:104-163 | wherever a pass ends, each transaction that took effect corrected one wrong entry and nothing else changed; after a completed pass nothing is wrong |
| OracleConfig.PassCompletes | scripts/configure-oracle-attesters.ts:104-163 | a pass completes exactly when every read goes through and every transaction for an initially wrong entry is confirmed |
| OracleConfig.EarlierFirst | scripts/configure-oracle-attesters.ts:104-163 | wherever a pass ends, if it changed an entry then everything wanted before that entry is right |
| OracleConfig.NothingWrittenTwice | scripts/configure-oracle-attesters.ts:104-163 | over any run of passes, each ending anywhere, the transactions that take effect are as many as the entries corrected, and nothing else changes |
| OracleConfig.StaysRight | scripts/configure-oracle-attesters.ts:104-163 | once a pass of a run completes, every wanted entry holds and no later pass sends anything |
| OracleConfig.PassConverges | scripts/configure-oracle-attesters.ts:137-163 | a completed pass leaves every wanted entry right if and only if the wanted entries do not contradict each other |
| OracleConfig.SecondPassIsIdle | scripts/configure-oracle-attesters.ts:104-163 | once everything holds a pass sends nothing and completes exactly when every read goes through |
| OracleConfig.WantsConsistent | scripts/configure-oracle-attesters.ts:49-58 | no iteration undoes another if and only if no chain id is listed with two settlers; the domain table is injective |
| OracleConfig.OracleConfigured | scripts/configure-oracle-attesters.ts:117-213 | with distinct chain ids: convergence, no clobbering, minimality and idempotence together |
| OracleConfig.HyperlaneConfigured | scripts/configure-oracle-attesters.ts:117-164 | after a completed pass every attester, domain id and trusted sender on chain is the listed one |
| OracleConfig.SuperchainConfigured | scripts/configure-oracle-attesters.ts:166-213 | after a completed pass every attester, source chain and output settler on chain is the listed one |
| OracleConfig.TrustComesLast | scripts/configure-oracle-attesters.ts:117-213 | wherever a pass ends, a chain is touched only if every attester is authorised, and a settler is trusted only for a chain that is announced |
| OracleConfig.NewOracle | scripts/configure-oracle-attesters.ts:104-163 | on a new oracle everything wanted is still to be written, except a zero settler |
| OracleConfig.AddressToBytes32Injective | scripts/configure-oracle-attesters.ts:92-94 | a 20-byte address is widened by 24 zeros in front, and injectively |
| OracleConfig.AddressToBytes32Text | scripts/configure-oracle-attesters.ts:92-94 | what widening gives for texts of every length |
| OracleConfig.ParseIntInjective | scripts/configure-oracle-attesters.ts:83-85 | decimal keys parse injectively |
| OracleConfig.ParseIntDigit | scripts/configure-oracle-attesters.ts:83-85 | decimal keys are read in decimal notation |
| OracleConfig.DeployedChainIds | scripts/configure-oracle-attesters.ts:78-86 | the deployed chains are exactly those of the entries with status "deployed" and an oracle, and have distinct ids |
| OracleConfig.UniqueAttesters | scripts/configure-oracle-attesters.ts:286-287 | the attester list is exactly the lower-case addresses, each once |
| Text.LowerMeaning | scripts/configure-oracle-attesters.ts:287 | capitals become the small letters at the same place of the alphabet, and other characters stay |
| OracleConfig.FilesConfigureOracle | scripts/configure-oracle-attesters.ts:78-287 | from any deployment object and addresses: the wanted entries are consistent, each effective transaction corrects one wrong entry, wherever the pass ends no entry changes but those of the addresses and of other listed deployed chains, a completed pass authorises every address and trusts every such chain, and the next pass sends none |
| AuditParser.PackageMeaning | scripts/check-vendor-security.ts:103-105 | a package is found exactly when the line is a run of non-spaces, spaces, one of <=, >= and ~, and the start of a version |
| AuditParser.PathMeaning | scripts/check-vendor-security.ts:109-112 | a path is found exactly when the line is spaces, "workspace:" and a run of non-spaces, and it is the whole run |
| AuditParser.SpaceCharacters | scripts/check-vendor-security.ts:103-119 | the characters that count as spaces and as line ends are those of ECMAScript |
| AuditParser.TrimMeaning | scripts/check-vendor-security.ts:119 | trimming leaves exactly what stands between the leading and trailing spaces |
| AuditParser.TitleMeaning | scripts/check-vendor-security.ts:116-119 | the title is the trimmed run up to a terminator from the last place behind the spaces where the greedy pattern can start its group, and is missing only if there is none |
| AuditParser.SeverityMeaning | scripts/check-vendor-security.ts:116-119 | a severity and title are found exactly when they stand at the leftmost place where any do |
| AuditParser.SeverityMissing | scripts/check-vendor-security.ts:116-119 | none is found exactly when none stands anywhere in the line |
| AuditParser.CaretRangeIsNoHeader | scripts/check-vendor-security.ts:103 | a line of non-spaces, spaces and a caret range is never a package header, whatever the spaces |
| AuditParser.ParseLines | scripts/check-vendor-security.ts:94-132 | the loop's result is the block specification's |
| AuditParser.ParseAudit | scripts/check-vendor-security.ts:94-132 | the same for the text of the audit output |
| AuditParser.StreamIsBlocks | scripts/check-vendor-security.ts:96-132 | reading line by line with a pending header is cutting the lines at headers |
| AuditParser.ReportsAreExact | scripts/check-vendor-security.ts:100-132 | a report is made if and only if it is a header with the first severity line of its block |
| AuditParser.ReportsInOrder | scripts/check-vendor-security.ts:100-132 | the reports follow the order of their headers, one for each header that has one |
| AuditParser.AuditMeaning | scripts/check-vendor-security.ts:94-132 | from the text: a report is made exactly for a header line and the first severity on the lines behind it before the next header, with that package, severity, title, and the path of the next line or "unknown" |
| AuditParser.Partition | scripts/check-vendor-security.ts:134-144 | the vendor and core lists partition the reports |
| AuditParser.VendorMeaning | scripts/check-vendor-security.ts:134-142 | a report is a vendor's exactly when its path has one of the seven words in it |
| TestnetDeployment.Deployment.UpdateStep | scripts/deploy/testnet-full.ts:72-76 | one status of the table is set, whatever it was, and the new table is shown |
| TestnetDeployment.Deployment.RunStep | scripts/deploy/testnet-full.ts:78-87 | any step is shown running and then as success or failed, and the error is passed on |
| TestnetDeployment.Deployment.SkipOrRun | scripts/deploy/testnet-full.ts:271-275 | skipping or running the first unfinished step keeps the run legal and finishes the step unless it fails |
| TestnetDeployment.Deployment.Run | scripts/deploy/testnet-full.ts:257-343 | the final table is determined by flags and outcomes, every table on the way is finished steps, at most one running or failed step, then pending ones, and the step reported is the only failed one |
| TestnetDeployment.EndsAsPlanned | scripts/deploy/testnet-full.ts:257-343 | the final table is the one written out for the flags, up to the first step that was to run and failed; the rest is pending |
| TestnetDeployment.StepsLeaveInOrder | scripts/deploy/testnet-full.ts:265-319 | over any legal run each step leaves pending once and in index order |
| AgentRegistry.StateKeyInjective | scripts/register-agents.ts:216 | keys are unambiguous when network names contain no colon |
| AgentRegistry.RegisterOne | scripts/register-agents.ts:215-242 | one iteration skips a registered app, adds a new registration, or records a failure |
| AgentRegistry.RegisterEach | scripts/register-agents.ts:212-243 | one pass: once-only registrations, one result per app in order |
| AgentRegistry.Registry.RegisterAllApps | scripts/register-agents.ts:202-245 | the map becomes the old one plus exactly the pass's registrations and is saved, or the save throws and the file stays |
| AgentRegistry.NewEntry | scripts/register-agents.ts:216-236 | every new entry stands under network, colon and name of an app and holds the id, hash and time of its answer and the network |
| AgentRegistry.RegisteredOnce | scripts/register-agents.ts:202-245 | over any run of passes in which nothing is lost every key is registered at most once, saved entries never change, and the map is the first one plus the successes |
| AgentRegistry.NeverAgainExactly | scripts/register-agents.ts:202-245 | no possible next pass registers a key again, at any point of a run, if and only if no pass registers an app and then fails to save |
| AgentRegistry.SavedExactly | scripts/register-agents.ts:215-222 | over any run a name is saved for a network, and so skipped there, exactly when it was from the start or a saved pass on that network registered that name |
| Modular.Fermat | packages/shared/src/crypto/mpc-custody.ts:119-124 | Fermat's little theorem, on which the modular inverse rests |
| KeyShares.ModPow | packages/shared/src/crypto/mpc-custody.ts:106-117 | square-and-multiply computes the power modulo the modulus |
| KeyShares.EvaluatePolynomial | packages/shared/src/crypto/mpc-custody.ts:129-136 | Horner's loop computes the polynomial's value modulo the prime |
| KeyShares.LagrangeInterpolate | packages/shared/src/crypto/mpc-custody.ts:141-163 | the nested loops compute the sum of share values times Lagrange weights at zero |
| Interpolation.Interpolates | packages/shared/src/crypto/mpc-custody.ts:141-163 | that sum over at least as many distinct points as coefficients is the polynomial at zero |
| KeyShares.Recovers | packages/shared/src/crypto/mpc-custody.ts:141-163 | any genuine shares of different holders, as many as the threshold or more, give the secret |
| KeyShares.EvalMasked | packages/shared/src/crypto/mpc-custody.ts:168-182 | with the secret and the drawn numbers as coefficients the polynomial is the secret masked by the draws times powers of the point |
| KeyShares.ShareSecret | packages/shared/src/crypto/mpc-custody.ts:224-233 | sharing uses every number drawn: each share is the masked secret at its holder's point |
| KeyShares.EverySecretFits | packages/shared/src/crypto/mpc-custody.ts:168-182 | any fewer shares fit every secret: there are random numbers with which a key for that secret gives out exactly these shares |
| KeyShares.GenerateKey | packages/shared/src/crypto/mpc-custody.ts:191-274 | a key is made exactly for a valid configuration, number of holders and private key, and each of its shares is the secret plus the drawn numbers times the powers of the holder's point, modulo the prime |
| KeyShares.Key.Rotate | packages/shared/src/crypto/mpc-custody.ts:423-483 | rotation recovers the secret from the first shares, and each new share is that secret masked by the numbers newly drawn |
| KeyShares.Request.Put | packages/shared/src/crypto/mpc-custody.ts:344-347 | a holder's share is added or replaces its earlier one, and the others stay |
| KeyShares.GenuineRecovers | packages/shared/src/crypto/mpc-custody.ts:371-377 | what enough shares of the current version give is the generated secret modulo the prime, and that secret itself if and only if it is below the prime |
| KeyShares.Request.Submit | packages/shared/src/crypto/mpc-custody.ts:329-417 | nothing is signed before the threshold, after completion, or with a key of another account; enough shares of the current version sign with exactly the generated secret, however often the key was rotated |
| ConfigLookup.EnvKeyFaithful | packages/config/index.ts:161-163 | on letter/digit names the key can be decoded, and both files build the same key, exactly when the name does not start with a capital |
| ConfigLookup.EnvKeyInjective | packages/config/network.ts:347 | two such names never share a key |
| ConfigLookup.EnvKeyShared | packages/config/index.ts:161-163 | two letter/digit names share a key exactly when they are equal up to the case of the first letter |
| ConfigLookup.EnvKeyWords | packages/config/index.ts:157-163 | the key of a camel-case name is its words in capitals, joined by underscores |
| ConfigLookup.EnvKeyStart | packages/config/index.ts:161-163 | a leading capital is kept and a leading underscore goes |
| ConfigLookup.CapitalNameClashes | packages/config/index.ts:161-163 | two different names do share a key |
| ConfigLookup.KeyFamiliesDisjoint | packages/config/index.ts:178-188 | the three kinds of keys never coincide, for any names and any category |
| ConfigLookup.LookUp | packages/config/index.ts:175-193 | a look-up gives the first of the VITE_, NEXT_PUBLIC_ and category variables that is set and not empty, and else the configured address |
| ConfigLookup.CategoryTexts | packages/config/index.ts:187 | the text of each category in its keys |
| ConfigLookup.ViteOverride | packages/config/index.ts:175-180 | setting a VITE_ key changes another look-up, of any name in any category, exactly when the names share their key and the address is new |
| ConfigLookup.NextOverride | packages/config/index.ts:182-184 | the same for a NEXT_PUBLIC_ key, unless the VITE_ key is set |
| ConfigLookup.CategoryOverride | packages/config/index.ts:186-188 | a category key changes exactly look-ups of its own category and shared key where neither other key is set |
| ConfigLookup.SharedName | packages/config/index.ts:175-188 | for a name in two categories the first two keys replace both contracts, the category key only its own |
| DeploymentFiles.FlattenContracts | packages/config/network.ts:191-203 | the result gives each key its last address leaf in traversal order; descending into null throws |
| DeploymentFiles.LeavesOfEntry | packages/config/network.ts:191-203 | an entry adds itself if it is a text that starts with "0x", the leaves under its "contracts" if it is an object that has them, and nothing otherwise |
| DeploymentFiles.LeavesOfOthers | packages/config/network.ts:191-203 | null throws, texts and scalars hold no leaves, and an array is read like an object with its indices as keys |
| DeploymentFiles.IndexKeyDigit | packages/config/network.ts:194 | the index keys of an array are decimal numerals |
| DeploymentFiles.LoadDeployedContracts | packages/config/network.ts:160-186 | the merge gives each key its last leaf across all files |
| DeploymentFiles.MergedLookup | packages/config/network.ts:160-186 | a look-up gives the last leaf, and for weth without a leaf the predeploy |

## Left out

- Solidity contracts (other than who may set a subnode's owner in the name registry), RPC calls, shell, docker, terraform, kubectl: only their success, failure or returned value enters.
- Keccak-256, UTF-8, JSON parsing and number formatting are abstract; JSON objects are given by their entry lists.
- Strings are sequences of Unicode scalar values: unpaired surrogates are not part of the model; `toLowerCase` and `toUpperCase` act on ASCII letters only.
- A growing JavaScript array is a sequence the method reassigns; output buffers of fixed size are arrays.
- Console output, notifications, waiting times and the timers that start the checks.
- Host: other content of version.json than what saveVersion writes or unparsable text, and a missing docker-compose.yml.
- Names.ParseJNSName: the name argument of `registerJNS` in scripts/deploy-app.ts, which strips the suffix the same way, is not modelled separately.
- ConfigureOracle: the loop over target chains in `main`, each with its own contract, RPC and try block, is left out; the simple oracle is `ConfigureAttesters` alone.
- Registry: resolvers, TTLs, `setOwner` and the combined setters of `JNSRegistry.sol` are left out.
- Key: encryption, commitments, holders' names and the signature itself of `mpc-custody.ts`; which account a private key has is a parameter.
- RegisterAllApps: the id and error text in the printed summary; results carry the app's name and its success.
- Deployment: step messages, and what the twelve steps do, are left out.
- GetContract: the cache of contracts.json and the throwing branch of `getContractAddress` are left out.
- `registerSingleApp`, which registers again without looking at the saved state, and the list, verify and status commands.
- The port, vote-percentage and time helpers, readiness scripts, enums and constant tables: single expressions or tables without state, on which none of the above depends.
