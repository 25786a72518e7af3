# Dino: a verified model

Dino is a chat and presence server that runs on several nodes. This project models its parts that
contain real algorithms or state machines and proves properties of them for all inputs, all runs
and all interleavings:

* **Custom ACL rules** (`AclClauses`, `AclTokens`, `AclPattern`, `AclMeaning`, `AclAction`). A rule such as
  `gender=m|(age=:35,gender=!f)` is rewritten, each group becoming a numbered placeholder, and the
  rewritten text is split and tested. The evaluator is shown equal to one that walks the rule
  directly, and that one is compared with the rule's boolean meaning.
* **Publishing and relaying** (`Windows`, `Publishing`, `ConcurrentPublishing`, `QueueHandling`, `Relay`,
  `RelayDelivery`). Each publisher and queue handler remembers the last hundred ids in a list and a set. Publishing is
  treated alone and with many threads; the nodes with their shared exchange are a transition system.
* **Configuration references** (`ConfigText`, `ConfigExpansion`). The search for references and the
  substitution of texts, round after round, are compared with recursive expansion.
* **Presence** (`Presence`, `SessionEnd`, `StatusCache`). Sessions, bitmap, online set, multicast set,
  status, and the status copies in each node's memory.
* **Rooms** (`Rooms`, `RoomLifecycle`). Member, name and channel tables, and the removal of empty rooms,
  the look at a room and its removal being two steps.
* **Texts in Redis** (`CsvSets`, `Roles`, `SessionIndex`, `RoomListing`). Role sets, session sets and the
  room listing with its lifetimes. `Strings` holds splitting, joining and decimal numerals for all modules.

Code that updates fields is a class whose methods are proved against functions on values; the
transition systems take their steps with the same functions.

## Where the code departs from its own words

* Storing a custom rule checks only its first alternative (`dino/validation/acl.py:363-366`), so a stored
  rule may crash later: `g=m|g=` for a user whose `g` is `f`. Rules without a bar are safe.
* A false group with separators raises and hides later alternatives, where the documentation
  (`docs/md/acl.md:65-77`) promises ordinary boolean logic.
* The set of used references starts with the characters of `{key}` (`dino/environ.py:158`), which no
  reference equals, and the test for circular references also refuses some values that are not circular.
* The clean-up of the memory tier is said to spare keys that are about to expire
  (`dino/cache/redis.py:72-74`); it deletes just those, and with them every status entry.
* Storing a room listing adds to the Redis hash while that is alive (`dino/cache/redis.py:622-624`), so
  rooms that are gone come back, and storing an empty listing leaves the old one in place.
* The room check discounts the one who left even if he is back (`dino/utils/__init__.py:862-864`), and a
  user who joins between the look of a delayed removal and the removal itself loses the room
  (`dino/utils/__init__.py:818-826`).
* The Redis database keeps one session of a user and forgets it when any of his sessions ends
  (`dino/db/redis.py:1165-1184`): the end of the first of two takes the user offline.
* A disconnect clears the user's list of rooms even if he has joined one meanwhile
  (`dino/hooks/disconnect.py:160`), so that the room lists him and he does not list the room.
* Handlers act on status copies up to thirty seconds old: an offline user is marked away, or a user
  without sessions is put online (`dino/hooks/status.py:96-120`).
* `create_room` of the Redis database inverts its ephemeral flag (`dino/db/redis.py:1292-1293`).
* `DatabaseRedis.get_user_status` ignores `skip_cache`, `set_user_online` does not take the keyword that
  login passes, and `set_user_status_invisible` is not implemented (`dino/db/redis.py:1386-1412`). The
  model follows the first; for the other two it takes the call as the body of the cache operation.

## Model

| member | source | states |
|---|---|---|
| `AclClauses.ClauseDecidesIffWellFormed` | dino/validation/acl.py:268-303 | a clause gives a plain yes or no for a user, whatever his session, if and only if it has one `=`, a known type other than `custom`, a value, and a value that its validator can parse |
| `AclClauses.ClauseCrashesIff` | dino/validation/acl.py:268-303 | a clause crashes, whatever the session, if and only if it has a known type and an empty value or a range that cannot be parsed |
| `AclClauses.NegationIsComplement` | dino/validation/acl.py:606-656 | `!` means "not" for a validator and session value if and only if the value is not the open range `:`, not blank, and the session has a usable value |
| `AclClauses.RangeMeaning` | dino/validation/acl.py:616-656 | a readable range accepts exactly the numbers within the bounds that it is parsed into, negated exactly those outside, except that `:` accepts all; `AclClauses.RangeDecides` says which bounds a text spells |
| `AclClauses.RangeDecides` | dino/validation/acl.py:616-656 | for any range and session text: accepted if and only if the session text is an integer, the range has an empty or integer side on either side of its first colon, and the integer lies between them, an empty side being no bound; negated, if it lies outside or the range is `:` |
| `AclClauses.RangeBetween` | dino/validation/acl.py:621-656 | for all integers, the text `a:b` accepts v exactly if v is from a to b, and negated exactly if it is not |
| `AclClauses.RangeUpTo` | dino/validation/acl.py:621-656 | `:b` accepts exactly v up to b, negated exactly the larger ones |
| `AclClauses.RangeFrom` | dino/validation/acl.py:621-656 | `a:` accepts exactly v from a on, negated exactly the smaller ones |
| `AclClauses.StrInCsvMeaning` | dino/validation/acl.py:524-539 | a comma list accepts exactly its members, negated exactly all others |
| `AclClauses.StrInCsvOtherwise` | dino/validation/acl.py:524-539 | a blank list accepts everybody, and without a session value a list or range rejects, negated or not |
| `AclClauses.ValidateMeets` | dino/validation/acl.py:268-303 | each validator, unnegated, accepts exactly what it is described to accept, in terms of lists and bounds instead of its own code |
| `AclClauses.OtherValidators` | dino/validation/acl.py:143-408 | a yes/no validator accepts exactly if the answer differs from the negation, the disallowing one never does, and an unusable one raises |
| `AclClauses.ClauseMeaning` | dino/validation/acl.py:268-303 | `name=value` asks the validator of that name about the session value of that name, `name=!value` the same negated, a stored clause is checked without a user, and an empty value crashes |
| `AclClauses.ClauseErrors` | dino/validation/acl.py:268-303 | unknown types, `custom`, no equal sign and two of them raise |
| `AclClauses.NewRangeIff` | dino/validation/acl.py:591-604 | a range can be stored exactly if each side of its first colon is empty or digits after at most one sign |
| `AclClauses.IsNumberIff` | dino/validation/generic.py:6-11 | the number test passes exactly non-empty digit texts, with or without one sign in front |
| `AclClauses.NewListIff` | dino/validation/acl.py:483-505 | a list can be stored exactly if it is blank or all its members are allowed values; a range without a colon cannot be stored |
| `AclClauses.StoredClauseIsWellFormed` | dino/validation/acl.py:591-604 | a clause that passes when a rule is stored can be evaluated later without an error for every user |
| `AclTokens.BalancedIffTokens` | dino/validation/acl.py:250-263 | the rules that pass the parenthesis check and hold no at-sign are exactly the texts of characters and un-nested groups |
| `AclTokens.TokenizeShow` | dino/validation/acl.py:327-332 | reading a rule into characters and groups inverts writing it, so the reading is the only one |
| `AclTokens.RestorePlaceholder` | dino/validation/acl.py:345-348 | the number printed between at-signs, read back, finds its group |
| `AclTokens.ExtractionIsReversible` | dino/validation/acl.py:327-332 | putting every `@n@` back restores the rule, decimal print and parse included |
| `AclTokens.UncheckedRuleNeverEnds` | dino/validation/acl.py:327-332 | on a rule that closes a parenthesis before it opens one the rewriting loop never ends |
| `AclTokens.LoopFateIs` | dino/validation/acl.py:327-332 | on any text one scan tells whether the rewriting loop ends, raises a ValueError, or never ends, exactly |
| `AclTokens.CheckedRuleEnds` | dino/validation/acl.py:250-263 | a balanced rule, at-signs allowed, is one on which it ends |
| `AclPattern.SplitRewritten` | dino/validation/acl.py:334-341 | splitting the rewritten text at a bar or a comma gives the rewritings of the parts that the rule itself has outside its groups |
| `AclPattern.LoneReferenceIff` | dino/validation/acl.py:345-347 | the at-sign test passes exactly for a part that is one whole group |
| `AclPattern.ReferenceFindsGroup` | dino/validation/acl.py:348-348 | the integer between the at-signs is the key under which the group was stored |
| `AclPattern.GroupIsRule` | dino/validation/acl.py:351-352 | a group with separators evaluates as the rule it would be on its own |
| `AclPattern.PatternRun.ExtractGroups` | dino/validation/acl.py:327-332 | the rewriting loop ends with the rule's placeholder form and stores the groups numbered from 0 |
| `AclPattern.PatternRun.TestAtom` | dino/validation/acl.py:344-361 | one part between separators: a clause, a whole group, or an error for a mixture |
| `AclPattern.PatternRun.TestAlternative` | dino/validation/acl.py:338-366 | one alternative: the first part that is not accepted decides, an exception escapes |
| `AclPattern.PatternRun.SplitAndTest` | dino/validation/acl.py:309-374 | evaluating the rewritten text gives the outcome of evaluating the rule directly, for every balanced rule, well formed or not |
| `AclMeaning.AcceptedMeansTrue` | dino/validation/acl.py:338-374 | every accepted rule is true in its boolean meaning, the comma binding tighter than the bar and groups being sub-rules |
| `AclMeaning.AtomVerdict` | dino/validation/acl.py:350-361 | a true part is accepted and a false one rejected, except that a false group with separators raises |
| `AclMeaning.AcceptsIff` | dino/validation/acl.py:338-374 | a well-formed rule is accepted if and only if some alternative is true and no earlier alternative runs into a false group with separators; otherwise a ValidationException is raised |
| `AclMeaning.ExactForSimpleGroups` | dino/validation/acl.py:309-374 | when every group is a single clause, acceptance equals the boolean meaning |
| `AclMeaning.RuleCrashesIff` | dino/validation/acl.py:338-374 | any rule crashes for a user if and only if its first alternative that is not rejected has, as its first part that is not accepted, a crashing clause or a group in which evaluation gets to one |
| `AclMeaning.FalseGroupHidesTrueAlternative` | dino/validation/acl.py:350-361 | a false group with separators in front makes the evaluator raise although a later alternative is true |
| `AclMeaning.StoringChecksFirstAlternative` | dino/validation/acl.py:363-366 | storing a rule tests its first alternative and nothing else |
| `AclMeaning.StoredTailUnchecked` | dino/validation/acl.py:363-366 | whatever follows the first alternative, well formed or not, changes nothing about storing |
| `AclMeaning.StoredAtomsReadable` | dino/validation/acl.py:265-266 | the clauses of a stored rule's first alternative are well formed, down to the first alternative of its groups |
| `AclMeaning.StoredIsWellFormedIff` | dino/validation/acl.py:338-366 | a stored rule has only readable clauses, so that it can be evaluated for every user, if and only if the alternatives after the first have, in the rule and in the groups of its first alternative |
| `AclMeaning.StoredWithoutBars` | dino/validation/acl.py:243-266 | a stored rule without a bar, outside or inside its groups, is well formed |
| `AclMeaning.ExactWithoutBars` | dino/validation/acl.py:338-374 | a well-formed rule of one alternative is accepted exactly when it is true |
| `AclMeaning.StoredRuleCanCrash` | dino/validation/acl.py:285-287 | after any stored alternative that rejects a user, a clause with nothing behind its equal sign is stored too and crashes the evaluation for that user |
| `AclMeaning.StoredRuleCrashes` | dino/validation/acl.py:285-287 | a family of such rules, from any two words |
| `AclMeaning.CheckParens` | dino/validation/acl.py:250-263 | the check passes exactly the rules whose depth stays within 0 and 1 and ends at 0 |
| `AclMeaning.ValidateNewAcl` | dino/validation/acl.py:243-266 | a rule is stored exactly when it is not blank, matches the alphabet, is balanced and its first alternative passes; it then holds no at-sign, so its evaluation ends |
| `AclMeaning.PatternIs` | dino/validation/acl.py:235-247 | the alphabet of stored rules, by character codes; a newline may end the rule |
| `AclMeaning.RangeCanBeStored` | dino/validation/acl.py:235-266 | every clause that gives a range of two natural numbers for a range type can be stored |
| `AclMeaning.Call` | dino/validation/acl.py:376-396 | a user is let in only if the rule is true for him, a well-formed rule never crashes, and a stored rule without a bar never crashes and lets him in exactly if it is true |
| `AclAction.VerdictIsConjunction` | dino/validation/acl.py:121-135 | the loop over listed ACL types accepts exactly when every type that is listed and set accepts |
| `AclAction.OrderDoesNotMatter` | dino/validation/acl.py:121-135 | acceptance does not depend on the order of the configured list |
| `AclAction.MoreAclsNeverAdmit` | dino/validation/acl.py:121-135 | adding an ACL type to the target never turns a rejection into an acceptance |
| `AclAction.ValidateAclForAction` | dino/validation/acl.py:59-135 | the exempt are let in; of the others, one is let in only if every listed and set ACL holds of him, described by lists and bounds, and the custom rule is true for him; without a custom rule he is let in if they all hold; an error escapes exactly if, in the order of the list, every type passes up to one that has no usable validator, is no range, or crashes as a custom rule |
| `Windows.RecordSound` | dino/endpoint/base.py:118-126 | recording any key keeps the set within the list and the list at most 100 long, a failing eviction included |
| `Windows.RecordExact` | dino/endpoint/base.py:118-126 | recording a new key keeps set and list equal and free of duplicates, evicts exactly the oldest, and never fails |
| `Windows.RecordExactIff` | dino/endpoint/base.py:118-126 | recording keeps set and list equal and free of duplicates if and only if the key is not in the set |
| `Windows.RecordAmongFew` | dino/endpoint/queue.py:147-159 | with at most 100 ids in all nothing is ever evicted |
| `Windows.RecordTracks` | dino/endpoint/base.py:118-126 | the window is the last 100 keys of the history, in which no key recurs within 100 entries |
| `Windows.RecordTracksIff` | dino/endpoint/base.py:118-126 | the window stays the last 100 keys of the history, none recurring within 100, if and only if the key is not in it |
| `Publishing.TopicKeyIff` | dino/endpoint/base.py:113-126 | when topics hold no bar, keys are equal if and only if the ids are and the topics are, a missing topic counting as the one it is written as |
| `Publishing.BasePublisher.RecentlySentHas` | dino/endpoint/base.py:113-116 | the look-up answers whether the key is among the last 100 recorded ones |
| `Publishing.BasePublisher.UpdateRecentlySent` | dino/endpoint/base.py:118-126 | any key is appended and the eviction finds its entry; the window stays exact if and only if the key was not among the last 100 |
| `Publishing.BasePublisher.Publish` | dino/endpoint/base.py:59-94 | a message is transmitted once, at the first of three tries the broker takes, exactly when its key is not among the last 100 recorded, and only then recorded |
| `ConcurrentPublishing.StepKeepsInv` | dino/endpoint/base.py:59-83 | every locked step and every try of any of the concurrent publishes keeps the invariant, the retry after a failed eviction included |
| `ConcurrentPublishing.TriesOfOnePublish` | dino/endpoint/base.py:69-94 | a new key gets three tries: three refusals make the publish give up, and a try that the broker takes, whichever of the three it is, leads to a recorded key and one transmission |
| `ConcurrentPublishing.KnownKeyIsIgnored` | dino/endpoint/base.py:59-67 | a publish of a recorded key ends at its look-up without a transmission |
| `ConcurrentPublishing.FailedEvictionRetries` | dino/endpoint/base.py:69-94 | when the eviction fails after a transmission the publish is tried again, up to the third time |
| `ConcurrentPublishing.EnteredIsTimeOfEntry` | dino/endpoint/base.py:118-126 | a key's time of entry changes exactly when a recording brings the key into the set |
| `ConcurrentPublishing.ReachableStates` | dino/endpoint/base.py:59-126 | over every interleaving the set stays within the list, the list within 100, a publish transmits at most three times, and who still sends a key that is in the set had checked before it came in |
| `ConcurrentPublishing.ExactIffNeverRecordsAgain` | dino/endpoint/base.py:59-126 | over every interleaving set and list stay equal in all states if and only if no key is recorded that is still in the set |
| `ConcurrentPublishing.ExclusiveRunIsExact` | dino/endpoint/base.py:59-126 | if no two publishes of one message overlap, then from the start set and list stay equal in all states, no recording fails to evict, and each publish transmits at most once, not at all when it gives up |
| `ConcurrentPublishing.BothGoOut` | dino/endpoint/base.py:59-83 | two overlapping publishes of one message can both be transmitted and recorded |
| `QueueHandling.QueueHandler.UpdateRecentlyDelegatedEvents` | dino/endpoint/queue.py:147-152 | any id joins the window of passed-on events without a failing eviction; the window stays exact if and only if the id was not in it |
| `QueueHandling.QueueHandler.UpdateRecentlyHandledEvents` | dino/endpoint/queue.py:154-159 | any id joins the window of handled events without a failing eviction; the window stays exact if and only if the id was not in it |
| `QueueHandling.QueueHandler.SendEventToOtherNode` | dino/endpoint/queue.py:168-177 | the id is remembered, the copy carries revision 0 or one more than before, and the windows stay exact if and only if the id was not passed on already |
| `QueueHandling.QueueHandler.HandleServerActivity` | dino/endpoint/queue.py:179-259 | new state and effects for every event are the reaction that the transition system uses; what this reaction makes of an event is `Relay.QuietMeansDelivered` and `RelayDelivery.QuietMeansPublished` |
| `Relay.StepKeepsInv` | dino/endpoint/queue.py:222-259 | every delivery, publication and injection keeps windows, mail, counts and the spreading of injected events in order |
| `Relay.AtMostOnce` | dino/endpoint/queue.py:222-241 | in every order of steps each node handles an id at most once, puts it on the exchange at most once, bounces included, and runs its local part only where it belongs |
| `Relay.RepeatsAreFarApart` | dino/endpoint/queue.py:147-159 | with any number of ids, between two handlings of one id on a node at least a hundred other ids are handled there, and the same for broadcasts |
| `Relay.PassedOnCopyHasNoEffect` | dino/endpoint/queue.py:229-235 | a copy that carries a revision changes nothing but the inbox |
| `Relay.RunsAreBounded` | dino/endpoint/pubsub.py:97-102 | relaying and bouncing end: the number of steps is bounded by nodes, ids and injections |
| `Relay.InjectionsAdd` | dino/endpoint/base.py:59-73 | the bound counts each injection of a run once and no other step |
| `Relay.StopsOnlyWhenQuiet` | dino/endpoint/queue.py:222-259 | only a system without messages and tasks cannot go on |
| `Relay.QuietMeansDelivered` | dino/endpoint/queue.py:179-199 | when quiet, each injected event was handled exactly once per node, a ban's local part ran exactly where the user is connected, every node stored the ban, and absent nodes passed it on |
| `RelayDelivery.QuietMeansPublished` | dino/endpoint/queue.py:222-259 | when quiet, each node has handed an event of another verb to the outside exactly once, which took it or refused it, and no other event; and it has put an event on the exchange if and only if it was brought in there, the outside refused it there, or it is a ban of a user who is not there |
| `RelayDelivery.PassedOnIsMarked` | dino/endpoint/queue.py:168-177 | in every reachable state what a node puts on the exchange without having brought it in carries a revision |
| `RelayDelivery.InjectedIff` | dino/endpoint/base.py:59-73 | over every run the events recorded as brought in are exactly those of its injections, node by node |
| `RelayDelivery.OutsideAnswers` | dino/endpoint/pubsub.py:97-118 | over every run in which the outside is up nothing is refused, and in one in which it is down nothing is taken |
| `Relay.PublishForwards` | dino/endpoint/pubsub.py:97-118 | a publisher task is never lost: its id ends in the window of the exchange or of the outside |
| `Relay.BroadcastSpreads` | dino/endpoint/base.py:59-73 | after a publisher did its work every node has handled the id or has an original copy coming |
| `ConfigText.ShowReading` | dino/environ.py:160-171 | the reading of a text with simple references spells that text |
| `ConfigText.SimpleShow` | dino/environ.py:160-171 | every value of plain text and simple references spells a text with a reading, so the texts that are covered are exactly those |
| `ConfigText.SearchShow` | dino/environ.py:161-163 | the search of the text finds exactly its first reference |
| `ConfigText.SearchFinds` | dino/environ.py:161-163 | on any text the search finds the leftmost opening brace that is followed by a closing one on its line, up to the first such, and nothing only if there is none |
| `ConfigText.FormatShow` | dino/environ.py:171-171 | formatting the text is replacing every reference at once, or a KeyError if one is not defined |
| `ConfigText.FormatOne` | dino/environ.py:171-171 | one reference among plain text is replaced by the text of its parameter, or is a KeyError |
| `ConfigText.FormatBraces` | dino/environ.py:171-171 | doubled braces are literal and single ones an error |
| `ConfigExpansion.SubstituteStep` | dino/environ.py:171-171 | one round of simultaneous substitution takes away one level of nesting and keeps the expansion |
| `ConfigExpansion.ExpandsIff` | dino/environ.py:160-173 | recursive expansion with cycle detection succeeds exactly when the nesting has a finite depth, with the same text |
| `ConfigExpansion.CycleHasNoExpansion` | dino/environ.py:165-170 | a value from which a cycle is reached has no expansion, so the loop does not return one |
| `ConfigExpansion.LeadSubstitute` | dino/environ.py:161-171 | the front reference of each round is the leftmost reference at that depth of the reference tree |
| `ConfigExpansion.DefinedSubstitute` | dino/environ.py:171-171 | a round of substitution moves the undefined references of every depth up by one |
| `ConfigExpansion.StopsOnce` | dino/environ.py:160-175 | every value has at most one depth at which the loop stops, and one kind of outcome there |
| `ConfigExpansion.StopsMeaning` | dino/environ.py:160-175 | it returns a value if and only if the value expands and no key leads twice, and a missing key means there is no expansion |
| `ConfigExpansion.ConfigFormat` | dino/environ.py:137-175 | `null` and `none` in any case give the empty string; otherwise the number of rounds is that of the depths that pass, the error is Circular exactly if the next one's front reference led before and Missing exactly if it did not and a reference there is undefined, and a value is returned exactly if it expands and no key leads twice, and is then the expansion |
| `ConfigExpansion.FalseAlarm` | dino/environ.py:165-170 | `{a}{b}` with b = `{a}` is refused as circular although it expands |
| `ConfigExpansion.ChainsAreExact` | dino/environ.py:160-173 | when every value holds at most one reference, a value that expands is always returned |
| `Presence.BitsDiffer` | dino/cache/redis.py:1395-1403 | canonical user ids do not share bits of the bitmap |
| `Presence.LeadingZerosShareBits` | dino/cache/redis.py:1395-1396 | ids with leading zeros do share a bit |
| `Presence.StepKeepsInvIff` | dino/hooks/status.py:83-196 | each handler, acting on any status it read, keeps bitmap, online set, multicast set and status consistent if and only if that status fits the one in Redis |
| `Presence.TrueStatusFits` | dino/hooks/status.py:154-161 | reading the true status is enough, except for the login-stage change of a user who is already active |
| `Presence.HandlerMeaning` | dino/hooks/status.py:83-196 | what every handler makes of being connected and of being seen as online |
| `Presence.StatusMeaning` | dino/hooks/status.py:83-196 | the status that each handler leaves behind, for any status it read |
| `Presence.VisibilityMeaning` | dino/hooks/status.py:83-196 | bitmap, online set and multicast after each handler, for any status it read |
| `Presence.SessionsMeaning` | dino/hooks/login.py:69-137 | the sessions after each handler, with either kind of session table |
| `Presence.OthersAsBefore` | dino/hooks/status.py:83-196 | no handler changes sessions, status, online set, multicast or bit of another user |
| `Presence.MemoryMeaning` | dino/cache/redis.py:1222-1265 | after a handler the node remembers the status that Redis has, or the copy it acted on if it changed nothing, and the other copies as they were |
| `Presence.ForgetMeaning` | dino/cache/redis.py:54-65 | a copy that times out is missing on that node alone, and nothing else changes |
| `Presence.AfterOneMore` | dino/hooks/status.py:83-196 | a longer run takes one more move from where the shorter one ends |
| `Presence.GoneIff` | dino/hooks/disconnect.py:27-66 | a disconnect takes the user to be gone if and only if no other session is listed, and takes away exactly its own |
| `Presence.StepKeepsConnectedIff` | dino/hooks/status.py:83-196 | acting on any status it read, every handler keeps multicast to users with sessions if and only if it does not put a user without one into it: set online, a blank login, back from a status read as away, invisible from one read as online |
| `Presence.TrueStatusSessionless` | dino/hooks/status.py:154-161 | if the status read is the true one, the last two cases do not arise |
| `Presence.EndOfOneOfTwoSessions` | dino/db/redis.py:1165-1184 | when the first of two sessions ends the user stays connected with every session listed, but is taken offline by the Redis database, which keeps one |
| `Presence.RunKeepsInvIff` | dino/hooks/status.py:83-196 | over every run of events on any nodes the presence data are consistent in all states if and only if each handler reads a status that fits the one in Redis |
| `Presence.TrueReadsFit` | dino/hooks/status.py:154-161 | every status read fits in a run in which handlers read the true one and no active user makes a login-stage change |
| `Presence.RunKeepsConnectedIff` | dino/hooks/disconnect.py:27-66 | over every run on any nodes, outdated copies included, whoever is in multicast has a session in all states if and only if no handler puts a user without one into it |
| `Presence.TrueReadsKeepConnectedIff` | dino/hooks/login.py:99-137 | over runs in which handlers read the true status, if and only if no user without sessions is set online or logs in with a blank one |
| `Presence.RunKeepsOneEach` | dino/db/redis.py:1165-1184 | over every run the table of the Redis database has at most one session of a user |
| `Presence.StickyRunsKeepInv` | dino/hooks/disconnect.py:250-265 | the presence data are consistent over every run in which a user's events all reach one node and no active user makes a login-stage change |
| `Presence.OutdatedCopyBreaksInv` | dino/hooks/status.py:96-107 | a node that acts on an outdated status copy makes an offline user away |
| `Presence.OutdatedCopyConnectsNobody` | dino/hooks/status.py:109-120 | a node that acts on an outdated status copy puts a user without sessions online, the rest staying consistent |
| `Presence.CacheRedis.GetUserStatus` | dino/db/redis.py:1386-1396 | memory first, then Redis, then "unavailable"; a found status is remembered |
| `Presence.CacheRedis.OnLogin` | dino/hooks/login.py:69-137 | login, the status before the session, is the login step of the transition system |
| `Presence.CacheRedis.OnSetAway` | dino/hooks/status.py:96-107 | away is its step, and reports whether the status changed |
| `Presence.CacheRedis.OnSetBack` | dino/hooks/status.py:109-120 | back is its step, and reports whether the status changed |
| `Presence.CacheRedis.OnSetVisible` | dino/hooks/status.py:122-140 | visible is its step: online if in multicast, else offline |
| `Presence.CacheRedis.OnSetInvisible` | dino/hooks/status.py:142-161 | invisible is its step, with the status-only change for offline users and the login stage |
| `Presence.CacheRedis.OnDisconnect` | dino/hooks/disconnect.py:27-66 | disconnect is its step, the sessions looked up and removed in three parts; an invisible user leaves multicast only |
| `SessionEnd.LastSessionEnds` | dino/hooks/disconnect.py:27-107 | with every session listed, the three parts of the hook remove exactly the session that ends, of a socket or a heartbeat, and find the user gone exactly if it was his last |
| `SessionEnd.AnySessionEnds` | dino/db/redis.py:1170-1184 | with the table of the Redis database, any session that ends empties the table and is taken for the last |
| `SessionEnd.PrivateRoomMeaning` | dino/hooks/disconnect.py:68-99 | the first part leaves several sessions alone, and otherwise takes the one that ends, or the only one of the Redis database |
| `SessionEnd.SessionTables.LeavePrivateRoom` | dino/hooks/disconnect.py:68-99 | with several sessions nothing changes; else the session goes, and an empty list is reset |
| `SessionEnd.SessionTables.EndSession` | dino/hooks/disconnect.py:250-265 | the three parts in turn, on the table of all users, change one user's sessions as the function the lemmas are about |
| `StatusCache.CleanupOnlyForgets` | dino/cache/redis.py:67-90 | cleaning up may turn a hit into a miss but not into another value, and does so exactly to entries with less than 31 seconds left |
| `StatusCache.MemoryCache.Get` | dino/cache/redis.py:54-65 | an entry is found until its expiry and deleted when looked up later |
| `StatusCache.MemoryCache.Cleanup` | dino/cache/redis.py:67-90 | the loop over a copy leaves exactly the entries that are valid 31 seconds later |
| `StatusCache.StatusNode.GetUserStatus` | dino/cache/redis.py:1222-1235 | a node's look-up gives what the runs below say, remembers a status found in Redis for ten seconds, and leaves other keys alone |
| `StatusCache.StatusNode.SetUserStatus` | dino/cache/redis.py:1262-1265 | a status that the node writes is remembered for thirty seconds, and other keys are left alone |
| `StatusCache.StatusAtMostThirtySecondsOld` | dino/cache/redis.py:1222-1265 | over every run whatever a node returns was the status in Redis at some moment of the last 30 seconds, and nothing is returned only if nothing was ever written |
| `StatusCache.CleanupDropsEveryStatus` | dino/cache/redis.py:72-87 | a clean-up drops every status entry, so the node then returns what Redis has |
| `StatusCache.NodeSteps` | dino/cache/redis.py:1222-1265 | what a write, a look-up, a clean-up and the passing of time change, in terms of times and values |
| `StatusCache.AfterOneMore` | dino/cache/redis.py:1222-1265 | a longer run takes one more step from where the shorter one ends |
| `StatusCache.EntryLives` | dino/cache/redis.py:47-65 | an entry is found up to its expiry and not later |
| `StatusCache.AnswersFor` | dino/cache/redis.py:1222-1265 | a node answers from memory for thirty seconds after a write and for ten after a read, and then from Redis |
| `Rooms.CreateKeepsInv` | dino/db/redis.py:1278-1299 | creating a room with an id never used keeps both member indexes, the channel tables and name uniqueness |
| `Rooms.CreateMeaning` | dino/db/redis.py:1278-1299 | creating succeeds if and only if the channel exists, the name is not blank, the room is not listed and no room of the channel has the name in any case; then the three tables give the room this name and channel, and all else is as before; each error has its condition |
| `Rooms.RenameMeaning` | dino/db/redis.py:1312-1327 | renaming succeeds if and only if the channel exists, the name is not blank, the room is listed and no room of the channel has the name in any case; then both tables hold the new name, and all else is as before |
| `Rooms.RemoveMeaning` | dino/db/redis.py:1372-1384 | removing succeeds if and only if the room is listed under an existing channel; then no table names it, and all other rooms are as before |
| `Rooms.JoinLeaveMeaning` | dino/db/redis.py:637-640 | joining, leaving, clearing a list and listing users, in terms of the member tables |
| `Rooms.RenameKeepsInv` | dino/db/redis.py:1312-1327 | renaming keeps them too |
| `Rooms.RemoveKeepsInv` | dino/db/redis.py:1372-1384 | removing keeps them, and succeeds exactly for an existing room under its own channel |
| `Rooms.JoinLeaveKeepInv` | dino/db/redis.py:1253-1255 | joining and leaving keep the two member indexes equal for every existing room |
| `Rooms.JoinLeaveUsers` | dino/db/redis.py:637-640 | joining and leaving add and take away exactly one user of one room |
| `Rooms.CheckMeaning` | dino/utils/__init__.py:842-884 | only an existing ephemeral room with nobody besides the leaver is touched: with the delay its tables stay and a removal under its channel is scheduled, otherwise it alone goes |
| `Rooms.EphemeralFlagIsInverted` | dino/db/redis.py:1292-1293 | a created room reads as ephemeral exactly when the flag was false |
| `Rooms.ForgetKeepsInvIff` | dino/db/redis.py:1210-1211 | clearing a user's room list keeps the indexes equal if and only if he is in no existing room |
| `Rooms.OwnNameIsTaken` | dino/db/redis.py:1323-1324 | renaming a room to its own name, in any case, is refused |
| `Rooms.DatabaseRedis.RoomNameExists` | dino/db/redis.py:568-576 | the loop finds a name in any case |
| `Strings.LowerIgnoresCase` | dino/db/redis.py:568-576 | two names are equal in small letters if and only if they are equal in capitals, so the comparison ignores case and nothing else |
| `Rooms.DatabaseRedis.CreateRoom` | dino/db/redis.py:1278-1299 | result and tables of creating, errors in the order of the code, which `Rooms.CreateMeaning` describes |
| `Rooms.DatabaseRedis.RenameRoom` | dino/db/redis.py:1312-1327 | result and tables of renaming, which `Rooms.RenameMeaning` describes |
| `Rooms.DatabaseRedis.RemoveRoom` | dino/db/redis.py:1372-1384 | result and tables of removing, which `Rooms.RemoveMeaning` describes; member tables stay behind |
| `Rooms.DatabaseRedis.LeaveRoom` | dino/db/redis.py:637-640 | result and tables of leaving |
| `Rooms.DatabaseRedis.CheckIfRemoveRoomEmpty` | dino/utils/__init__.py:842-884 | for an existing ephemeral room with nobody besides the leaver: with the delay the tables are unchanged and a timer gets the room's channel, otherwise exactly this room goes and there is no timer; in every other case nothing changes |
| `Rooms.DatabaseRedis.LeaveAllRooms` | dino/hooks/disconnect.py:109-160 | after the loop no existing room has the user and nobody else moved; with the delay no room goes and the timers are exactly for his ephemeral rooms without others, otherwise exactly these rooms go |
| `RoomLifecycle.StepKeepsSound` | dino/utils/__init__.py:1805-1847 | every step of every interleaving keeps tables, names, timers and removals in order |
| `RoomLifecycle.StepKeepsTwoWayIff` | dino/hooks/disconnect.py:116-160 | and the two member indexes equal, unless a disconnect clears the list of a user who is in a room that exists |
| `RoomLifecycle.RunKeepsSound` | dino/utils/__init__.py:1805-1847 | over every run tables, names, timers and removals stay in order |
| `RoomLifecycle.RunKeepsOkIff` | dino/hooks/disconnect.py:116-160 | over every run the two member indexes agree in all states if and only if no disconnect clears the list of a user who is in a room that exists |
| `RoomLifecycle.OnlyEmptyRoomsAreRemoved` | dino/utils/__init__.py:818-884 | over all interleavings a room goes, other than by the administrator, exactly by a removal that was decided when the room was ephemeral and a look found nobody in it, the one who left aside |
| `RoomLifecycle.CheckDecides` | dino/utils/__init__.py:853-882 | a check sets a timer, decides a removal or does neither by the same conditions, and changes no table |
| `RoomLifecycle.TimerDecides` | dino/utils/__init__.py:818-826 | a timer decides a removal exactly when it finds nobody in the room |
| `RoomLifecycle.AdminSteps` | dino/db/redis.py:1278-1384 | creating, renaming and removing take effect in every state in which their conditions hold |
| `RoomLifecycle.UserSteps` | dino/hooks/disconnect.py:109-160 | joining, leaving and being kicked change one user of one room, and only leaving has the room checked |
| `RoomLifecycle.RejoinedRoomSurvivesTimer` | dino/utils/__init__.py:818-823 | the look of a delayed removal decides nothing about a room that somebody is in |
| `RoomLifecycle.UsersLater` | dino/utils/__init__.py:818-826 | after any steps a room that remains holds exactly those who joined and stayed and those who were there and did not leave |
| `RoomLifecycle.TimerRemovesRoomUnderIff` | dino/utils/__init__.py:818-826 | a delayed removal takes a room from under a user if and only if he joined between its look and the removal and did not leave again |
| `RoomLifecycle.CheckRemovesRoomUnderIff` | dino/utils/__init__.py:842-884 | an immediate removal takes a room from under a user if and only if he joined since the look and did not leave again, or is the leaver, was back in the room at the look, and has not left |
| `RoomLifecycle.FlagLater` | dino/utils/__init__.py:853-854 | after any steps the ephemeral flag of a room that remains is what it was last set to, or else the old one |
| `RoomLifecycle.PermanentWhenRemovedIff` | dino/utils/__init__.py:818-884 | a room is permanent when its removal comes, at once or by a timer, if and only if the last change of its flag since the check made it so |
| `RoomLifecycle.JoinAfterLookLosesRoom` | dino/utils/__init__.py:818-826 | which can happen |
| `RoomLifecycle.LeaverWhoCameBackLosesRoom` | dino/utils/__init__.py:860-866 | a user who leaves and comes back before the check runs loses the room he is in |
| `RoomLifecycle.TimerIgnoresLaterPermanence` | dino/utils/__init__.py:818-826 | a room made permanent while its timer runs is removed all the same |
| `RoomLifecycle.ForgettingTooMuchBreaksIndexes` | dino/hooks/disconnect.py:160-160 | clearing the list of a user who rejoined a room meanwhile makes the indexes differ |
| `CsvSets.JoinedParts` | dino/cache/redis.py:757-764 | a joined list splits into the same names; the empty list into the empty string |
| `Roles.RoleTable.HasRole` | dino/db/redis.py:349-371 | the look-up is membership in the user's set of roles |
| `Roles.RoleTable.AddRole` | dino/db/redis.py:373-404 | exactly the role is added, for exactly the user, whatever order the string gets; a room or channel that is not known gets none |
| `Roles.RoleTable.RemoveRole` | dino/db/redis.py:406-444 | exactly the role is removed, the last one included |
| `SessionIndex.NewListLeadsBack` | dino/cache/redis.py:722-748 | giving a user a new list keeps every listed session leading back to its user |
| `SessionIndex.SessionIndex.GetSidsForUser` | dino/cache/redis.py:757-764 | the parts of the stored string, the empty one included |
| `SessionIndex.SessionIndex.AddSidForUser` | dino/cache/redis.py:733-748 | the session joins the user's set; every listed session leads back to its user if and only if nobody else had it |
| `SessionIndex.SessionIndex.SetSidsForUser` | dino/cache/redis.py:722-731 | the sessions become the user's set; every listed session leads back to its user if and only if nobody else had one of them |
| `SessionIndex.SessionIndex.RemoveSidForUser` | dino/cache/redis.py:692-720 | exactly the session leaves the set, the last one included, and leads nowhere; without a user only the way back goes; what remains leads back if and only if nobody else had the session |
| `SessionIndex.SessionIndex.ResetSidsForUser` | dino/cache/redis.py:688-690 | the user's set becomes empty |
| `RoomListing.DecodeEncode` | dino/cache/redis.py:556-618 | every record comes back from its text, for every integer, both flags and any name |
| `RoomListing.StoredText` | dino/cache/redis.py:608-618 | the text of a room: sort order, flags as `true` or `false`, users and name, between bars |
| `RoomListing.FieldsRead` | dino/cache/redis.py:556-588 | what any stored text is read as: the defaults of empty fields, both flags in any case, and when it cannot be read |
| `RoomListing.TiersAgreeIff` | dino/cache/redis.py:608-624 | after storing, memory and Redis answer alike if and only if the listing is not empty and the old hash held no room that has gone since |
| `RoomListing.AnswersForAMinuteIff` | dino/cache/redis.py:546-624 | a stored listing is what every look-up of the next minute gives, from memory or Redis, if and only if it is not empty and holds every room of the hash alive when it was stored |
| `RoomListing.AnswersFromMemory` | dino/cache/redis.py:546-624 | for ten seconds memory gives what was stored, and for the rest of the minute the rooms of the old hash come along |
| `RoomListing.AnswersLater` | dino/cache/redis.py:606-624 | later it is forgotten, but ten seconds after an empty listing the old hash comes back while it is alive |
| `RoomListing.RoomListings.SetRoomsForChannel` | dino/cache/redis.py:596-624 | memory gets the listing for ten seconds, the hash its entries for a minute, an expired hash counting as empty |
| `RoomListing.RoomListings.GetRoomsForChannel` | dino/cache/redis.py:546-588 | memory while its entry is alive, else every entry of the hash decoded while that is alive |

## Left out

- Clients and transports (Socket.IO, Kafka, AMQP, Cassandra, Redis), logging, statistics, admin pages and REST resources: I/O. Redis is maps and sets, the exchange is a copy into every inbox, the broker's answers and the clock are inputs.
- `dino/db/rdbms/handler.py`: the Redis database and cache are the back ends modelled.
- Regular expressions, JSON, Base64 and Activity Streams parsing; the alphabet test of custom rules and the search for references are written out.
- Text is compared with ASCII letters, digits and blanks only; `int` reads signs, surrounding blanks and single underscores, but no other digits.
- ACL validators other than range, string in list, yes/no and disallow: the same room, same channel and list-in-list validators are not modelled; a yes/no answer stands for those about the user.
- Configuration values that are lists, dictionaries or not strings, escaped braces, conversions, format specifications, attributes, and positional references.
- `ConfigDict.get` around `config_format`: domains and defaults only choose which value is formatted.
- AclMeaning.Call: asks for a balanced rule without at-signs, which `ValidateNewAcl` grants of every stored rule; on others the evaluation ends, fails or goes on as `AclTokens.LoopFateIs` says, and what it decides is not modelled.
- AclAction.ValidateAclForAction: asks the same of a custom rule on the target.
- Publishing.BasePublisher.Publish: takes messages one after another; overlapping publishes are `ConcurrentPublishing`.
- Relay.AtMostOnce: takes a look-up with its transmission and recording as one step, internal sends succeed, and at most 100 distinct ids exist; overlapping publishes of one node are `ConcurrentPublishing`, and any number of ids is `Relay.RepeatsAreFarApart`.
- Relay.QuietMeansDelivered: who is connected where is fixed over a run. Kick and disconnect events that a ban sends to the outside are not followed; they get fresh ids, and when the outside is down their bounces are not bounded by the ids here.
- QueueHandling.QueueHandler.HandleServerActivity: an exception inside a local handler is not modelled; the program logs it and goes on.
- Presence.StepKeepsInvIff: handlers are atomic and ids are canonical decimals up to 2^53, since `int(float(id))` rounds above.
- Presence.CacheRedis.OnLogin: the call on the Redis database for a visible login raises on its keyword and the one for an invisible login is not implemented; both are taken as the cache operations they stand for.
- Presence.CacheRedis.OnDisconnect: events to the outside, last-online times and the rooms of the user are not part of it, nor are failing calls between its parts.
- SessionEnd.SessionTables.EndSession: the index of the cache stands for `dino/db/rdbms/handler.py:3371-3480` without the SQL rows behind it, which answer when the cache has lost its list.
- The time at which a status changed, last-online times and outgoing events of the presence operations: written along with the status and read by nothing here.
- Presence.RunKeepsInvIff: copies time out at any moment instead of after their seconds; `StatusCache` has the times.
- StatusCache.StatusAtMostThirtySecondsOld: writing memory and Redis is one step.
- Rooms.DatabaseRedis.LeaveAllRooms: runs without other users in between; the interleaved version is `RoomLifecycle`.
- Rooms.CreateKeepsInv: room ids are never used twice, since member tables outlive a room.
- Rooms.DatabaseRedis.CreateRoom: the owner, the user names and the cached existence of the channel are left out; they have no effect on the tables here.
- Rooms.DatabaseRedis.RenameRoom: the cached existence of the channel is left out.
- Rooms.DatabaseRedis.RemoveRoom: the cached existence of the channel and the deletion of the room's roles are left out.
- RoomLifecycle.OnlyEmptyRoomsAreRemoved: the look of a check, at name, channel, flag and users, is one step, the removal after it another; a join is one step, from the look at the room's name to its two writes.
- SessionIndex.SessionIndex.RemoveSidForUser: the second try after a RuntimeError is not modelled.
- SessionIndex.SessionIndex.AddSidForUser: sessions are not empty and hold no comma, here and in the operations beside it.
- User names in member tables: carried along without effect on the tables here.
- The spam classifier, the blacklist, request validators and activity dictionaries: straight-line code.
