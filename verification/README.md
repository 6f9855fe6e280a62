# Verified models of the orchestrator and the job bot

A Dafny model of the logic of two programs: the chat-bot orchestrator (`services/orchestrator`) and the
job-board bot (`modules/job-bot`). Code that changes state step by step is modelled by classes and methods with
loops, each proved against a function of its inputs or of the old state; what the code is for is proved about
those functions, for all inputs, all runs or all interleavings. Where a property that one would expect is false
of the code, the project holds a concrete input that shows it and the exact condition under which it is true.

`dafny verify dfyconfig.toml` checks everything.

| file | models |
|---|---|
| TokenBucket.dfy, LimiterRegistry.dfy | the token bucket per client and the registry that evicts idle buckets |
| OpenApiPruning.dfy, OpenApiContents.dfy | pruning of an OpenAPI document by reachability over references, and its output told on the document |
| FolderTree.dfy | the folder tree built from parent pointers and sorted in place |
| McpSchema.dfy, McpContents.dfy | normalisation of tool schemas, and its result told on the schema |
| ConfigIntegrity.dfy | the integrity pass over a configuration, on a heap with shared dictionaries |
| MarkdownLinks.dfy, MarkdownRewriter.dfy, MarkdownPages.dfy | the link scanner, and the rewriting of segments and of pages |
| SentenceFeeder.dfy | cutting streamed text into spoken chunks |
| GroupChat.dfy | the buffers of group messages between requests |
| VersionComparator.dfy, VersionText.dfy, VersionCleaning.dfy, BackupVersions.dfy | version order, version grammar, its lower-casing, the import rule |
| PlatformStats.dfy | merging duplicate statistics rows |
| IdleTimers.dfy | idle timers of sandboxes as interleaved tasks |
| Checkpoints.dfy | loading and saving histories with checkpoints |
| ToolSets.dfy | the set of tools over any history |
| Conversations.dfy, HistoryPages.dfy | the current conversation over cache and store, and readable pages |
| UsageCounters.dfy, VacancyNotifications.dfy, OverlappingSends.dfy | lazily reset counters, and sending under limits, alone and overlapping |
| Json.dfy, PythonText.dfy, StableSorting.dfy, Selections.dfy, Wrappers.dfy | JSON values, white space, a stable sort, parts picked from a sequence, Option |

Reading conventions: times are reals and never run backwards within a run; a stretch of code without an await is
one step; JSON is an inductive datatype whose objects are lists of fields; Python exceptions appear as `None`
where a member's comment says so.

What the code does otherwise than expected, each with its exact condition in the table:

- Evicting idle buckets can be observed, and breaks the rate bound, if an idle hour does not refill a whole burst.
- What the OpenAPI pass keeps without following it (an unused security scheme, webhooks) can be left with a reference
  to a pruned schema.
- A property named `required` can lose its mark during schema normalisation.
- A null default with no value of the user over it makes every later integrity pass report a change.
- A new target with unbalanced parentheses changes the links of the page, and one with a backtick its code.
- A chunk boundary inside a run of delimiters depends on how the text arrived.
- A group-chat request whose own message has left the buffer consumes another's message at the remembered index.
- A letter v inside a pre-release vanishes, so ordered versions compare as equal; a bare version number followed
  by a line break is taken for 0.0 when a backup is imported.
- A numeric timestamp whose text reads as a date is merged differently the second time.
- A sandbox is left without a timer when two idle timers of its session share a deadline, and also when another
  boot of the session fails; a shutdown takes a booter installed meanwhile out of the table, and also one that was
  reused meanwhile.
- A lookup of the current conversation that is overtaken by a switch caches the old one for good, and a selection
  that fails to be stored stays cached.
- Deleting the current conversation does nothing after a restart until an operation has touched it.
- A notification whose recording fails is not counted, increments that overlap are lost, a late reset wipes earlier
  increments, and sends that overlap take a user past the daily limit.

## Model

| member | source | states |
|---|---|---|
| TokenBucket.AuthRateLimiter.Acquire | services/orchestrator/astrbot/dashboard/server.py:58-68 | A call at time now grants and leaves the bucket exactly as the value functions say on which the laws below are proved |
| TokenBucket.TokensInRange | services/orchestrator/astrbot/dashboard/server.py:58-68 | On every run at non-decreasing times the tokens stay within 0 and capacity |
| TokenBucket.GrantedExactly | services/orchestrator/astrbot/dashboard/server.py:58-68 | A bucket created full grants call n if and only if that keeps every window of the run, wherever it opened, within capacity + elapsed * rate: it neither over- nor under-admits |
| TokenBucket.GrantCountIs | services/orchestrator/astrbot/dashboard/server.py:58-68 | What the windows of GrantedExactly count: the granted calls of the stretch, each once |
| TokenBucket.GrantsWithinIs | services/orchestrator/astrbot/dashboard/server.py:58-68 | What the windows of WindowBound count: the granted calls made within, each once |
| TokenBucket.WindowBound | services/orchestrator/astrbot/dashboard/server.py:58-68 | In every window of every run at most capacity + length * rate calls succeed, also from a bucket that is not full |
| LimiterRegistry.RateLimiterRegistry.EvictExpired | services/orchestrator/astrbot/dashboard/server.py:91-99 | Sweeps at most every 1800 s and drops exactly the buckets idle for more than 3600 s, keeping the other bucket objects |
| LimiterRegistry.RateLimiterRegistry.GetOrCreate | services/orchestrator/astrbot/dashboard/server.py:81-89 | Returns the object stored under the key afterwards: the surviving one, or a new full one |
| LimiterRegistry.RateLimiterRegistry.HandleRequest | services/orchestrator/astrbot/dashboard/server.py:291-318 | One limited request changes the whole registry state, and answers, as the value model used in the laws below |
| LimiterRegistry.ConfiguredLimits | services/orchestrator/astrbot/dashboard/server.py:302-309 | Whatever the configuration says, the limits used are positive |
| LimiterRegistry.ServeSimulates | services/orchestrator/astrbot/dashboard/server.py:71-99 | Simulation step: as long as 3600 * rate >= capacity, the evicting registry and one that never evicts answer alike and stay related |
| LimiterRegistry.EvictionUnobservableExactly | services/orchestrator/astrbot/dashboard/server.py:71-99 | On every interleaving of keys the evicting registry answers like one that never evicts if and only if 3600 * rate >= capacity |
| LimiterRegistry.EvictionShows | services/orchestrator/astrbot/dashboard/server.py:71-99 | Otherwise a concrete run of two bursts by one client tells the two apart |
| LimiterRegistry.RateBoundExactly | services/orchestrator/astrbot/dashboard/server.py:58-99 | The bound on grants per key and window survives eviction and recreation on every run if and only if 3600 * rate >= capacity |
| LimiterRegistry.AnswersGoOn | services/orchestrator/astrbot/dashboard/server.py:71-99 | A run can be split anywhere: the requests behind are answered from the state the ones before have left |
| LimiterRegistry.GrantedToIs | services/orchestrator/astrbot/dashboard/server.py:58-99 | What the bound counts: the granted requests of the key that acquire within the window, each once |
| LimiterRegistry.NoLongIdleSurvivor | services/orchestrator/astrbot/dashboard/server.py:74-99 | After the lookup of any request of any run no entry has been idle for 5400 s or more |
| OpenApiPruning.RefRoundTrip | services/orchestrator/docs/scripts/update_openapi_json.py:87-102 | Parsing a written reference gives back its section and name, whatever the name contains |
| OpenApiPruning.CollectUsedRefs | services/orchestrator/docs/scripts/update_openapi_json.py:134-147 | The worklist terminates, on cyclic references too, and marks exactly the references reachable by chains through existing components; it raises exactly if a reachable reference looks into a section that is no dictionary |
| OpenApiPruning.FilterPublicOpenApi | services/orchestrator/docs/scripts/update_openapi_json.py:105-162 | The pass over a whole document, every top-level member included: it raises exactly where the code does, and otherwise writes the public tags, the kept operations and the components pruned by reachability |
| OpenApiPruning.FilteredGet | services/orchestrator/docs/scripts/update_openapi_json.py:114-161 | The rewritten members of the output; every other member is the document's |
| OpenApiPruning.KeptExactly | services/orchestrator/docs/scripts/update_openapi_json.py:149-161 | Outside securitySchemes a component is kept, with its value, if and only if the kept operations reach it |
| OpenApiPruning.FollowedRefsResolve | services/orchestrator/docs/scripts/update_openapi_json.py:134-161 | Every reference in a kept operation or in a component that one reaches still resolves if it did |
| OpenApiPruning.OutputRefs | services/orchestrator/docs/scripts/update_openapi_json.py:114-161 | A reference occurs anywhere in the output only if it was followed or is carried: on the document, in members the pass does not write, in kept tags, in sections kept whole, on the components or on a section; and every carried one occurs |
| OpenApiPruning.NothingDanglesExactly | services/orchestrator/docs/scripts/update_openapi_json.py:114-161 | No reference anywhere in the output newly dangles if and only if every carried one refers to a component that stays |
| OpenApiPruning.SchemeCanDangle | services/orchestrator/docs/scripts/update_openapi_json.py:151-153 | A concrete document whose unused security scheme is left with a dangling reference |
| OpenApiPruning.WebhookCanDangle | services/orchestrator/docs/scripts/update_openapi_json.py:114 | A concrete document whose webhooks are left with one |
| OpenApiPruning.ReachableAfterPruning | services/orchestrator/docs/scripts/update_openapi_json.py:134-161 | Pruning does not change what is reachable |
| OpenApiPruning.FilterIdempotent | services/orchestrator/docs/scripts/update_openapi_json.py:105-162 | Filtering a filtered document succeeds and changes nothing |
| OpenApiContents.FilteredTells | services/orchestrator/docs/scripts/update_openapi_json.py:113-162 | Whenever the pass succeeds, told on the document: the output's tags, paths with their operations, and component sections are exactly those that stay, in the order of the document; every other member is the document's; the walk starts from the references at any place in the kept paths |
| OpenApiContents.OperationKeptExactly | services/orchestrator/docs/scripts/update_openapi_json.py:121-132 | An operation is in the output, unchanged, if and only if it is in the document, its path is neither of the two excluded ones and an entry of its tags is a public one |
| OpenApiContents.FailsExactly | services/orchestrator/docs/scripts/update_openapi_json.py:114-160 | The pass raises if and only if tags, paths or components are of a wrong kind, a tag's name or an operation's tags cannot be read, a path is no dictionary, or a reachable reference leads into a section that is no dictionary |
| OpenApiContents.RefsExactly | services/orchestrator/docs/scripts/update_openapi_json.py:67-84 | The references found in a value are exactly the local ones of dictionaries at any place in it |
| OpenApiContents.ParseExactly | services/orchestrator/docs/scripts/update_openapi_json.py:87-102 | A reference names a component if and only if it is written with the prefix, the section, a slash and the name |
| OpenApiContents.ReachableExactly | services/orchestrator/docs/scripts/update_openapi_json.py:134-147 | A component is reachable if and only if a chain of components ends in it that starts in the kept paths, each naming the next |
| FolderTree.FolderTreeBuilder.GetFolderTree | services/orchestrator/astrbot/core/persona_mgr.py:276-313 | For any parent assignment, cycles and orphans included, the builder terminates; the table holds for each id the folder listed last; the roots and every shown child list are the folders with that parent, each once, ordered by sort_order, then name by code point, then place in the table; and each folder occurs in the tree once if its parent chain reaches a root and never otherwise |
| FolderTree.FolderTreeBuilder.SortFolders | services/orchestrator/astrbot/core/persona_mgr.py:306-311 | The recursive sort in place sorts exactly the lists below the given folders, each once, and touches no other list |
| FolderTree.FolderTreeBuilder.LinkChildren | services/orchestrator/astrbot/core/persona_mgr.py:296-303 | Every folder is appended to its parent in database order; an unknown parent drops it |
| FolderTree.ShownExactly | services/orchestrator/astrbot/core/persona_mgr.py:296-303 | A folder is shown if and only if the chain of parents above it meets neither a missing parent nor a cycle |
| FolderTree.DepthBelowSize | services/orchestrator/astrbot/core/persona_mgr.py:306-313 | No chain below a root is longer than the table, which bounds the recursion |
| FolderTree.AppearsOnceIfUnder | services/orchestrator/astrbot/core/persona_mgr.py:306-313 | In the preorder of the finished tree a folder below the given ones occurs exactly once, any other never |
| FolderTree.SiblingsOrdered | services/orchestrator/astrbot/core/persona_mgr.py:306-307 | Sorting the children of a folder lists each of them once; of two siblings the first has the lower sort_order, or the same and the lower name, or both the same and the earlier place in the table |
| FolderTree.TableTells | services/orchestrator/astrbot/core/persona_mgr.py:284-295 | A repeated id keeps its first place and its last value |
| StableSorting.SortSorts | services/orchestrator/astrbot/core/persona_mgr.py:307 | The sort orders by key |
| StableSorting.SortStable | services/orchestrator/astrbot/core/persona_mgr.py:307 | The sort is stable, as list.sort is |
| StableSorting.TextLeExactly | services/orchestrator/astrbot/core/persona_mgr.py:307 | One text is not above another if and only if they are equal, it is a proper prefix, or it has the smaller character where they first differ |
| McpSchema.NormalizeNode | services/orchestrator/astrbot/core/agent/mcp_client.py:339-377 | The recursion over a schema equals the value function on which the laws below are proved, the TypeError of an unhashable entry included |
| McpSchema.LiftRequired | services/orchestrator/astrbot/core/agent/mcp_client.py:355-369 | The loop strips exactly the boolean marks and appends exactly the marked names, in order |
| McpSchema.NormalizeGivesNormal | services/orchestrator/astrbot/core/agent/mcp_client.py:339-377 | In the result no property schema, at any depth, keeps a boolean required |
| McpSchema.NormalizeIdempotent | services/orchestrator/astrbot/core/agent/mcp_client.py:329-379 | Normalising twice is normalising once |
| McpSchema.RequiredExactly | services/orchestrator/astrbot/core/agent/mcp_client.py:347-375 | An object requires afterwards exactly what it listed before and its properties marked true, except a property named required whose entry was itself rewritten |
| McpSchema.UnionExactly | services/orchestrator/astrbot/core/agent/mcp_client.py:347-375 | required is the union of the old list and the marked properties if and only if no marked, unlisted property named required is rewritten |
| McpSchema.RequiredCanBeLost | services/orchestrator/astrbot/core/agent/mcp_client.py:347-375 | A concrete schema that normalises and loses its mark that way (section 6.5.3 of JSON Schema Validation Draft 2020-12 requires the union) |
| McpContents.NodeTells | services/orchestrator/astrbot/core/agent/mcp_client.py:345-375 | The result of an object, told on the object: its keys in their order but for required, its values normalised, each property schema whole but for a boolean required it was marked with, and required the first ones of its entries and the marked names, in that order |
| McpContents.PropertyKeeps | services/orchestrator/astrbot/core/agent/mcp_client.py:339-375 | From input to output the schema of a property keeps what is under every key other than required and properties, normalised |
| McpContents.LeafTells | services/orchestrator/astrbot/core/agent/mcp_client.py:339-343 | Lists are normalised item by item, and other values stay |
| McpContents.RaisesExactly | services/orchestrator/astrbot/core/agent/mcp_client.py:347-375 | The normalisation raises if and only if somewhere an object with properties lists an entry as required that cannot be hashed |
| ConfigIntegrity.CheckConfigIntegrity | services/orchestrator/astrbot/core/config/astrbot_config.py:166-223 | On the heap: the configuration holds the merged tree afterwards, inserted defaults being the reference's own objects, the reference is unchanged, and the flag is exactly the change predicate |
| ConfigIntegrity.CheckTwice | services/orchestrator/astrbot/core/config/astrbot_config.py:166-223 | A second pass, which may run over shared dictionary objects, changes nothing, and returns True exactly if a null default has no usable user value over it |
| ConfigIntegrity.PlainValueAfterPass | services/orchestrator/astrbot/core/config/astrbot_config.py:176-205 | At every path where the reference is plain, the user's usable value survives and otherwise the default stands |
| ConfigIntegrity.DictAfterPass | services/orchestrator/astrbot/core/config/astrbot_config.py:176-221 | At every path where the reference is a dictionary, the result is one with exactly its keys in its order |
| ConfigIntegrity.FalseExactly | services/orchestrator/astrbot/core/config/astrbot_config.py:166-223 | The pass returns False if and only if it changed nothing, order included, and no null default was left standing |
| ConfigIntegrity.SecondPassExactly | services/orchestrator/astrbot/core/config/astrbot_config.py:181-184 | The second pass returns True if and only if some null default has no usable user value; never if the reference has no nulls |
| ConfigIntegrity.NullDefault | services/orchestrator/astrbot/core/config/astrbot_config.py:181-184 | A run that shows it: a null default over an empty configuration makes both passes report a change |
| ConfigIntegrity.GapIsPath | services/orchestrator/astrbot/core/config/astrbot_config.py:181-184 | That condition as one on paths of the two trees |
| MarkdownLinks.IterMarkdownLinks | services/orchestrator/docs/scripts/sync_docs_to_wiki.py:144-186 | The scanner with all its jumps terminates and yields exactly the links a scan of every position yields |
| MarkdownLinks.FindLabelEnd | services/orchestrator/docs/scripts/sync_docs_to_wiki.py:108-123 | Agrees with the positionwise definition of a label's end |
| MarkdownLinks.FindTargetEnd | services/orchestrator/docs/scripts/sync_docs_to_wiki.py:126-141 | Agrees with the positionwise definition of a target's end |
| MarkdownLinks.TargetExactly | services/orchestrator/docs/scripts/sync_docs_to_wiki.py:126-141 | A target ends at r if and only if a text with balanced unescaped parentheses stands before a closing parenthesis there |
| MarkdownLinks.LabelHoldsNoLink | services/orchestrator/docs/scripts/sync_docs_to_wiki.py:171-176 | Jumping past a label whose target never ends misses no link |
| MarkdownLinks.LinksAscend | services/orchestrator/docs/scripts/sync_docs_to_wiki.py:144-186 | Spans ascend without overlap, the leading exclamation mark included, and prefix + target + suffix is the spanned text |
| MarkdownLinks.EveryLinkCovered | services/orchestrator/docs/scripts/sync_docs_to_wiki.py:144-186 | Wherever a link can start, a yielded link covers the place |
| MarkdownLinks.LinkExactly | services/orchestrator/docs/scripts/sync_docs_to_wiki.py:108-187 | There is a link at a bracket if and only if behind it a first unescaped closing bracket is followed, over white space, by a parenthesis with a balanced target; it starts at an exclamation mark in front |
| MarkdownLinks.LinksTell | services/orchestrator/docs/scripts/sync_docs_to_wiki.py:144-187 | The links found are, from the left, the link at each place and those behind its end |
| MarkdownRewriter.RewriteLinksInSegment | services/orchestrator/docs/scripts/sync_docs_to_wiki.py:324-342 | The loop produces the segment with its targets replaced |
| MarkdownRewriter.OnlyTargetsChange | services/orchestrator/docs/scripts/sync_docs_to_wiki.py:324-342 | Segment and rewriting are woven from the same pieces around old and new targets |
| MarkdownRewriter.UnresolvedIsIdentity | services/orchestrator/docs/scripts/sync_docs_to_wiki.py:316-342 | The rewriting is the identity if no target resolves |
| MarkdownRewriter.RescanExactly | services/orchestrator/docs/scripts/sync_docs_to_wiki.py:324-342 | Scanning the rewritten segment gives the same links with the new targets if and only if every new target has balanced parentheses |
| MarkdownRewriter.TargetCanCloseEarly | services/orchestrator/docs/scripts/sync_docs_to_wiki.py:324-342 | A concrete segment and target for which the links do change |
| MarkdownRewriter.RewriteIdempotent | services/orchestrator/docs/scripts/sync_docs_to_wiki.py:324-342 | Rewriting a rewritten segment changes nothing if new targets are balanced and the resolver leaves them alone |
| MarkdownPages.SegmentsLoseNothing | services/orchestrator/docs/scripts/sync_docs_to_wiki.py:345-373 | The segments of a page concatenate to the page |
| MarkdownPages.SegmentsAgainExactly | services/orchestrator/docs/scripts/sync_docs_to_wiki.py:345-395 | A rewritten stretch between code blocks has the same segments, but for the new targets, if and only if no rewritten text holds a backtick, save the last, which may hold one |
| MarkdownPages.BacktickMovesCode | services/orchestrator/docs/scripts/sync_docs_to_wiki.py:345-395 | A page whose code moves because the new target has a backtick |
| MarkdownPages.FenceAtExactly | services/orchestrator/docs/scripts/sync_docs_to_wiki.py:10-13 | The blocks found are the matches of the fence pattern: from a position, the shortest text that fits it |
| MarkdownPages.RewriteLinks | services/orchestrator/docs/scripts/sync_docs_to_wiki.py:376-395 | Code blocks and inline code are copied, and only text segments are rewritten |
| MarkdownPages.PageTells | services/orchestrator/docs/scripts/sync_docs_to_wiki.py:345-395 | In the page that comes out every block that the pattern matches stands unchanged between the rewritten stretches, and no place outside the blocks starts a match |
| MarkdownPages.InlineExactly | services/orchestrator/docs/scripts/sync_docs_to_wiki.py:350-360 | The segments of a stretch are the only ones that make it up with text and inline code alternating and no backtick in a text but perhaps one in the last |
| MarkdownPages.HasInlineExactly | services/orchestrator/docs/scripts/sync_docs_to_wiki.py:14 | There is inline code where there are two backticks |
| MarkdownPages.RewrittenAt | services/orchestrator/docs/scripts/sync_docs_to_wiki.py:382-393 | Only text segments are rewritten |
| MarkdownPages.UnresolvedPageUnchanged | services/orchestrator/docs/scripts/sync_docs_to_wiki.py:376-395 | A page in whose text no target resolves comes back unchanged |
| SentenceFeeder.Feeder.Feed | services/orchestrator/astrbot/core/astr_agent_run_util.py:526-552 | One piece: the nested loops cut buffer + piece as the reference cutting does |
| SentenceFeeder.Feeder.Finish | services/orchestrator/astrbot/core/astr_agent_run_util.py:554-561 | What is left is queued unless blank, a failed stream loses it, and the end marker always follows |
| SentenceFeeder.RunAgentFeeder | services/orchestrator/astrbot/core/astr_agent_run_util.py:511-561 | The whole queue, as a function of the pieces |
| SentenceFeeder.StreamShape | services/orchestrator/astrbot/core/astr_agent_run_util.py:526-556 | However the text is cut into pieces: chunks and held-back text concatenate to it, each chunk has at least 10 characters and ends in a delimiter, and what is held back is a short delimited part plus a delimiter-free tail |
| SentenceFeeder.CutTells | services/orchestrator/astrbot/core/astr_agent_run_util.py:530-552 | The cut of a text: each chunk runs to the first place at least ten characters on where a run of the seven delimiters ends, and in what is left there is no such place |
| SentenceFeeder.StreamTells | services/orchestrator/astrbot/core/astr_agent_run_util.py:526-552 | One more piece: an empty one changes nothing, any other is cut together with what was held back |
| SentenceFeeder.SpokenTells | services/orchestrator/astrbot/core/astr_agent_run_util.py:546-556 | Of the chunks those are queued that are not white space throughout |
| PythonText.SpacesAre | services/orchestrator/astrbot/core/astr_agent_run_util.py:546-556 | What counts as white space, character by character |
| SentenceFeeder.StreamExactly | services/orchestrator/astrbot/core/astr_agent_run_util.py:526-556 | The chunks are those of the whole text read at once if and only if no piece starts with a delimiter where the text before it ends with a chunk |
| SentenceFeeder.RunCanBeCut | services/orchestrator/astrbot/core/astr_agent_run_util.py:526-556 | A concrete stream that is cut differently |
| GroupChat.GroupChatContext.HandleMessage | services/orchestrator/astrbot/builtin_stars/astrbot/group_chat_context.py:140-156 | Records one message: the buffer is then the last texts and ids of the old one and the new one, as many as there are or the limit allows (300 where none is set), so that only what the limit leaves no room for is trimmed; id and index are left in the event, other sessions are unchanged, the invariant holds |
| GroupChat.GroupChatContext.OnReqLlm | services/orchestrator/astrbot/builtin_stars/astrbot/group_chat_context.py:160-190 | A request injects exactly the messages before its prompt, takes the prompt and keeps the rest, even if the event's index is stale; the invariant holds |
| GroupChat.GroupChatContext.RemoveSession | services/orchestrator/astrbot/builtin_stars/astrbot/group_chat_context.py:130-138 | A reset clears the session and counts what it held |
| GroupChat.TrimLeft | services/orchestrator/astrbot/builtin_stars/astrbot/group_chat_context.py:290-298 | Both deques keep their newest entries, all or as many as the limit, whichever is less |
| GroupChat.RecordedSound | services/orchestrator/astrbot/builtin_stars/astrbot/group_chat_context.py:140-156 | Recording keeps the invariant: buffers aligned, a suffix of the session's log, every logged message in exactly one place (buffered, injected into one request, trimmed, consumed, cleared) |
| GroupChat.AnsweredSound | services/orchestrator/astrbot/builtin_stars/astrbot/group_chat_context.py:160-190 | A request keeps the invariant |
| GroupChat.ResetSound | services/orchestrator/astrbot/builtin_stars/astrbot/group_chat_context.py:130-138 | A reset keeps the invariant |
| GroupChat.OwnMessageConsumedExactly | services/orchestrator/astrbot/builtin_stars/astrbot/group_chat_context.py:163-190 | Whenever the request of a recorded message comes: it takes something exactly if the message is still buffered or the buffer reaches the remembered index, and it consumes its own message if and only if that is still buffered; otherwise another's, which then is in no request |
| GroupChat.StaleRequest | services/orchestrator/astrbot/builtin_stars/astrbot/group_chat_context.py:140-190 | A run that shows it: a trimmed message's request consumes the next message, whose own request finds nothing |
| VersionComparator.CompareParsed | services/orchestrator/astrbot/cli/utils/version_comparator.py:35-77 | On any two parsed versions the answer is -1, 1 or 0 exactly as section 11 of Semantic Versioning 2.0.0 orders them, missing numeric parts read as zero |
| VersionComparator.ComparePre | services/orchestrator/astrbot/cli/utils/version_comparator.py:52-75 | The loop over pre-release identifiers decides by the leftmost difference and then by length |
| VersionComparator.Trichotomy | services/orchestrator/astrbot/cli/utils/version_comparator.py:8-77 | Exactly one of lower, higher and equivalent holds |
| VersionComparator.PrecedesTransitive | services/orchestrator/astrbot/cli/utils/version_comparator.py:8-77 | The order is transitive through zero padding and mixed identifiers, and equivalent versions are interchangeable |
| VersionComparator.EquivalentExactly | services/orchestrator/astrbot/cli/utils/version_comparator.py:35-77 | Versions are equivalent if and only if their numbers agree up to trailing zeros and their pre-releases are equal |
| VersionText.CompareVersion | services/orchestrator/astrbot/cli/utils/version_comparator.py:8-77 | For any two texts: -1, 1 or 0 exactly as what is read from the first is lower, higher or equivalent; an unreadable text reads as no numbers |
| VersionText.SplitPrerelease | services/orchestrator/astrbot/cli/utils/version_comparator.py:79-90 | The loop yields the dotted identifiers, all-digit ones as numbers; none for an empty pre-release |
| VersionText.ReadPieces | services/orchestrator/astrbot/cli/utils/version_comparator.py:18-30 | A text put together from dotted numbers, identifiers and build metadata is read as exactly those |
| VersionText.RoundTrip | services/orchestrator/astrbot/cli/utils/version_comparator.py:18-30 | Reading a rendered version gives it back, with or without build metadata and final line break |
| VersionText.CleanTells | services/orchestrator/astrbot/cli/utils/version_comparator.py:14-16 | Of a text the characters other than v and V are read, in their order, the letters A to Z in lower case |
| VersionText.ParseExactly | services/orchestrator/astrbot/cli/utils/version_comparator.py:18-77 | A text is read if and only if it is made of dotted numbers, perhaps dotted identifiers behind a dash and build metadata behind a plus, with at most a line break at the end; it is read as exactly those, and any other text as no number at all |
| VersionText.CharsAre | services/orchestrator/astrbot/cli/utils/version_comparator.py:18-30 | Which characters numbers and identifiers are made of |
| VersionCleaning.LetterVIgnored | services/orchestrator/astrbot/cli/utils/version_comparator.py:15-16 | A letter v anywhere in a version counts for nothing |
| VersionCleaning.ReleaseOrderLost | services/orchestrator/astrbot/cli/utils/version_comparator.py:15-16 | So two pre-releases that section 11 orders compare as equal |
| VersionCleaning.ReadAsStatedExactly | services/orchestrator/astrbot/cli/utils/version_comparator.py:15-30 | The comparison sees the version a readable text states if and only if its pre-release has no capital letter and no v and its build metadata is more than letters v |
| BackupVersions.CheckVersionCompatibility | services/orchestrator/astrbot/core/backup/importer.py:315-360 | An import is allowed exactly if a version is given and the first two parts compare as equal; a match exactly if the whole versions are equivalent too |
| BackupVersions.ImportTells | services/orchestrator/astrbot/core/backup/importer.py:42-60 | Whatever the two texts are, an import is allowed if and only if a backup version is given and both texts tell the same numbers in their first two dotted pieces in front of a dash or a plus, pieces that are no numbers counting as 0.0 |
| BackupVersions.ImportExactly | services/orchestrator/astrbot/core/backup/importer.py:42-60 | Between any well-formed versions an import is allowed if and only if the first two zero-padded parts agree, a bare version (one number and a line break) counting as 0.0 on either side |
| BackupVersions.RuleKeptExactly | services/orchestrator/astrbot/core/backup/importer.py:315-344 | The rule of the first two parts holds except exactly for two bare versions with different numbers, and a bare version other than zero against n.0, n its number, or 0.0 |
| BackupVersions.BareTurnedAway | services/orchestrator/astrbot/core/backup/importer.py:42-60 | The backup version 4 with a line break is turned away by 4.0 |
| BackupVersions.WholeVersionDecides | services/orchestrator/astrbot/core/backup/importer.py:330-360 | A backup of a version equivalent to the running one is let through if and only if both or neither of the two are bare, or they state 0.0 |
| PlatformStats.InvalidCountWarnLimiter.WarnInvalidCount | services/orchestrator/astrbot/core/backup/importer.py:118-137 | After n invalid counts the log is exactly: as many warnings as the limit allows and one notice of suppression |
| PlatformStats.LogTells | services/orchestrator/astrbot/core/backup/importer.py:118-137 | The log over n invalid counts, entry by entry |
| PlatformStats.InvalidTells | services/orchestrator/astrbot/core/backup/importer.py:656-687 | The invalid counts are the rows whose count cannot be converted |
| PlatformStats.NormalizeEntry | services/orchestrator/astrbot/core/backup/importer.py:656-687 | A new row object: the normalised time or what can be said of it, the count converted and 0 where it is missing or cannot be, all other columns as they came |
| PlatformStats.RowTells | services/orchestrator/astrbot/core/backup/importer.py:656-687 | The columns of a stored row and the key under which it may be merged, told on the incoming row |
| PlatformStats.MergePlatformStatsRows | services/orchestrator/astrbot/core/backup/importer.py:617-654 | With rows shared between index and list, the list holds the merged rows as distinct new objects |
| PlatformStats.SumsKept | services/orchestrator/astrbot/core/backup/importer.py:617-654 | Merging conserves the total count and each key's sum |
| PlatformStats.KeptExactly | services/orchestrator/astrbot/core/backup/importer.py:634-652 | A row position is kept if and only if the row has no key or is the first with its key |
| PlatformStats.MergedRows | services/orchestrator/astrbot/core/backup/importer.py:634-652 | Keys end pairwise distinct, in order of first occurrence, all columns but the count as they first came |
| PlatformStats.MergedExactly | services/orchestrator/astrbot/core/backup/importer.py:634-652 | Each merged row carries its key's whole sum, an unmergeable row its own count |
| PlatformStats.SecondMergeExactly | services/orchestrator/astrbot/core/backup/importer.py:617-687 | Given an idempotent timestamp normaliser, merging again changes nothing if and only if no row has a timestamp that is no text and no time but whose str() reads as one |
| PlatformStats.SecondMergeCanDiffer | services/orchestrator/astrbot/core/backup/importer.py:665-674 | A library that keeps the stated laws and a row under which the second merge differs |
| Checkpoints.BindCheckpointMessages | services/orchestrator/astrbot/core/agent/message.py:327-342 | Loading raises exactly if some message has an unknown role, or no content without being an assistant's with tool calls, and otherwise returns new objects holding the bound messages, no-save marks of messages and parts read back |
| Checkpoints.LoadedTells | services/orchestrator/astrbot/core/agent/message.py:327-342 | The messages loaded are the items that are no checkpoints, in their order, with their fields and marks |
| Checkpoints.DumpMessagesWithCheckpoints | services/orchestrator/astrbot/core/agent/message.py:345-361 | Saving writes each message without its no-save parts and its checkpoint behind it |
| Checkpoints.SavedTells | services/orchestrator/astrbot/core/agent/message.py:345-361 | What is saved: each message in its place with its fields and its unmarked parts in their order, its checkpoint right behind it, and nothing else |
| Checkpoints.ResaveExactly | services/orchestrator/astrbot/core/agent/message.py:327-361 | Loading and saving is idempotent and leaves unchanged exactly the histories without leading, adjacent or invalid checkpoints and without a message or part marked no-save |
| Checkpoints.MarkedPartIsDropped | services/orchestrator/astrbot/core/agent/message.py:57-58 | A concrete history that loses its marked part |
| Checkpoints.MessagesStay | services/orchestrator/astrbot/core/agent/message.py:305-361 | All other messages stay, in order, without what is marked no-save |
| Checkpoints.StripCommutes | services/orchestrator/astrbot/core/agent/message.py:305-361 | Stripping before or after makes no difference |
| Checkpoints.BoundExactly | services/orchestrator/astrbot/core/agent/message.py:327-342 | A message carries a checkpoint if and only if it is the last valid one between that message and the next |
| Checkpoints.SaveThenLoadExactly | services/orchestrator/astrbot/core/agent/message.py:327-361 | Saving and loading restores the messages and their checkpoints if and only if nothing is marked no-save |
| ToolSets.ToolSet.AddTool | services/orchestrator/astrbot/core/agent/tool.py:91-108 | The loop overwrites the tool of that name unless that would replace an active one by an inactive one, and appends a new name |
| ToolSets.ToolSet.RemoveTool | services/orchestrator/astrbot/core/agent/tool.py:110-112 | All tools of that name go |
| ToolSets.ToolSet.GetTool | services/orchestrator/astrbot/core/agent/tool.py:114-119 | The first tool of that name, or none |
| ToolSets.ToolSet.Merge | services/orchestrator/astrbot/core/agent/tool.py:348-351 | A merge is the additions of the other set's tools as they were, even if the other set is this one |
| ToolSets.ReplayTells | services/orchestrator/astrbot/core/agent/tool.py:91-112 | After any history names are distinct and are those added since their last removal, in order of first such addition; the tool held is the last active one added since, or the last one if none was active |
| ToolSets.Held | services/orchestrator/astrbot/core/agent/tool.py:114-119 | A name added since its last removal is found, and what is found is the preferred addition of the history |
| ToolSets.MergeIsAdditions | services/orchestrator/astrbot/core/agent/tool.py:348-351 | Histories with merges are histories of additions |
| IdleTimers.ComputerClient.ClearCuaIdleState | services/orchestrator/astrbot/core/computer/computer_client.py:45-48 | Takes out the entry and cancels an unfinished timer |
| IdleTimers.ComputerClient.ScheduleCuaIdleCleanup | services/orchestrator/astrbot/core/computer/computer_client.py:51-87 | Replaces the session's timer |
| IdleTimers.ComputerClient.ExpireWhenIdle | services/orchestrator/astrbot/core/computer/computer_client.py:57-84 | One step of a timer between two awaits, cancellation included |
| IdleTimers.ComputerClient.GetBooterReused | services/orchestrator/astrbot/core/computer/computer_client.py:558-559 | The stretch of get_booter that hands out the stored booter finds it in the table |
| IdleTimers.ComputerClient.GetBooterInstalled | services/orchestrator/astrbot/core/computer/computer_client.py:654-657 | The stretch that stores a new booter |
| IdleTimers.ComputerClient.GetBooterDiscarded | services/orchestrator/astrbot/core/computer/computer_client.py:577-578 | The stretch that drops an unavailable booter |
| IdleTimers.InvHolds | services/orchestrator/astrbot/core/computer/computer_client.py:45-87 | On every interleaving each registered timer is unfinished, uncancelled and the newest of its session |
| IdleTimers.OwnedHolds | services/orchestrator/astrbot/core/computer/computer_client.py:45-87 | With distinct deadlines every timer that could still shut a sandbox down is registered |
| IdleTimers.TimersSafe | services/orchestrator/astrbot/core/computer/computer_client.py:45-87 | With distinct deadlines, on every interleaving: only the newest uncancelled timer starts a shutdown, a timer removes no entry but its own, at most one live timer a session, and one that is never superseded ends with the booter gone |
| IdleTimers.NewerEntryLostExactly | services/orchestrator/astrbot/core/computer/computer_client.py:81-84 | A superseded timer that ends takes out the newer entry if and only if the two share their deadline |
| IdleTimers.LostTimerDoesNothing | services/orchestrator/astrbot/core/computer/computer_client.py:63-84 | After that loss the newer timer starts no shutdown whenever it resumes |
| IdleTimers.SharedDeadlineLeaks | services/orchestrator/astrbot/core/computer/computer_client.py:81-84 | Two uses of a sandbox at one instant leave it up with no timer |
| IdleTimers.BootFailureLeaks | services/orchestrator/astrbot/core/computer/computer_client.py:644-657 | So does a boot that fails after another call has installed the session's sandbox, all deadlines being distinct |
| IdleTimers.EntryExactly | services/orchestrator/astrbot/core/computer/computer_client.py:45-87 | On every run a session has an entry if and only if some step armed it (an installation or a reuse with a positive timeout) and nothing since armed it anew or disarmed it: a failed boot, a discard, a rescheduling without a timeout, or the end of a timer of the session with that deadline |
| IdleTimers.WatchedExactly | services/orchestrator/astrbot/core/computer/computer_client.py:45-87 | On every run a session has a live registered timer, or one that is shutting its sandbox down, if and only if it was armed and nothing has disarmed it since, or a shutdown began and has not been resumed since |
| IdleTimers.ShutdownBeginsExactly | services/orchestrator/astrbot/core/computer/computer_client.py:57-84 | What a timer does next, told on the run: it sleeps before its deadline, begins the shutdown of the booter in the table if it is not cancelled and the session was last armed until its deadline and not disarmed since, and otherwise is done |
| IdleTimers.NotBeforeIdle | services/orchestrator/astrbot/core/computer/computer_client.py:57-69 | With sleeps that last as long as asked, a shutdown begins only when a timeout has passed since the last step that armed the session |
| IdleTimers.ShutdownTakesItsOwn | services/orchestrator/astrbot/core/computer/computer_client.py:67-78 | Unless a new booter is installed meanwhile, a shutdown takes out of the table the booter it shut down, or none |
| IdleTimers.TakesStrangerExactly | services/orchestrator/astrbot/core/computer/computer_client.py:67-78 | The step that ends a shutdown takes out just the session's booter, and that is one it did not shut down if and only if the last booter installed for the session is another |
| IdleTimers.ShutdownTakesANewcomer | services/orchestrator/astrbot/core/computer/computer_client.py:67-78 | A booter installed meanwhile is taken out without having been shut down |
| IdleTimers.StaysExactly | services/orchestrator/astrbot/core/computer/computer_client.py:67-78 | A booter in the table stays there if and only if no later step discards it, installs another, or ends a shutdown of the session, whichever booter that was of |
| IdleTimers.ReuseSafe | services/orchestrator/astrbot/core/computer/computer_client.py:45-87 | A sandbox reused while none of its timers is shutting down is safe from every timer there is, on every continuation |
| IdleTimers.ReusedDuringShutdown | services/orchestrator/astrbot/core/computer/computer_client.py:67-78 | Reused during its own shutdown it is taken out of the table again, all deadlines being distinct |
| Conversations.ConversationManager.SwitchConversation | services/orchestrator/astrbot/core/conversation_mgr.py:112-122 | The stretch up to the first await: the cache is set before the store |
| Conversations.ConversationManager.GetCurrConversationId | services/orchestrator/astrbot/core/conversation_mgr.py:160-170 | Answers from the cache if it holds an id, else goes on to read the store |
| Conversations.ConversationManager.DeleteConversation | services/orchestrator/astrbot/core/conversation_mgr.py:137-140 | The target is the named conversation or the cached one; without either nothing happens |
| Conversations.ConversationManager.Resume | services/orchestrator/astrbot/core/conversation_mgr.py:78-174 | Every further step of the five operations, an awaited call's effect and the stretch behind it apart; other sessions are untouched |
| Conversations.FinishedIs | services/orchestrator/astrbot/core/conversation_mgr.py:78-174 | What an operation that runs to its end undisturbed leaves selected, cache and store agreeing before and after |
| Conversations.StaleExactly | services/orchestrator/astrbot/core/conversation_mgr.py:78-174 | On every interleaving, whatever raises or is cancelled, once all tasks are through: a lookup answers something other than what is stored if and only if the last step that touched the cache put a value there, and either another task's write, the last and of another value, fell behind the moment its task read or stored it, or its task failed to store it and it is not stored |
| Conversations.StaleMeansOvertaken | services/orchestrator/astrbot/core/conversation_mgr.py:108-174 | Where nothing fails, a stale cache comes with a write by another task behind the access |
| Conversations.LookupOvertaken | services/orchestrator/astrbot/core/conversation_mgr.py:160-174 | A run that shows it: a switch during a lookup leaves the old conversation cached |
| Conversations.FailureShows | services/orchestrator/astrbot/core/conversation_mgr.py:112-122 | A switch alone shows it if storing the selection raises |
| Conversations.CacheUnobservable | services/orchestrator/astrbot/core/conversation_mgr.py:78-174 | On every run without overlap, restarts and failures included, a lookup answers what is stored if and only if the last value put into the cache was not one whose storing failed; and a stored selection is cached if and only if an operation has touched it since the process started |
| Conversations.DeleteCurrentExactly | services/orchestrator/astrbot/core/conversation_mgr.py:137-144 | After any such run, deleting without naming a conversation unselects the current one if and only if an operation has touched it since the process started, and otherwise does nothing; what it deletes is the selected conversation unless a failure left another in the cache |
| Conversations.DeleteAfterRestart | services/orchestrator/astrbot/core/conversation_mgr.py:137-144 | A run that shows it |
| Conversations.SoundExactly | services/orchestrator/astrbot/core/conversation_mgr.py:78-158 | Across an undisturbed operation every session stays in an existing conversation of its own, or none, if and only if the operation does not switch to another's or a missing conversation nor delete one that another session is in |
| HistoryPages.GetHumanReadableContext | services/orchestrator/astrbot/core/conversation_mgr.py:367-418 | The requested slice of the grouped lines and the page count, for any page and page size |
| HistoryPages.LinesTell | services/orchestrator/astrbot/core/conversation_mgr.py:392-411 | One line for each user or assistant record, with its text, its tool calls or the note that it is unknown |
| HistoryPages.ContextsTell | services/orchestrator/astrbot/core/conversation_mgr.py:392-411 | The lines of the pages are those of the exchanges, the newest first, each exchange the lines behind the previous assistant record up to its own |
| HistoryPages.PageTells | services/orchestrator/astrbot/core/conversation_mgr.py:413-418 | For any page and any page size but zero, negative ones included: the page is the slice between the two multiples, and the number of pages the quotient rounded up |
| HistoryPages.GroupsCover | services/orchestrator/astrbot/core/conversation_mgr.py:392-411 | The groups put back in order, followed by the unanswered lines, are the lines of the history |
| HistoryPages.PendingExactly | services/orchestrator/astrbot/core/conversation_mgr.py:395-408 | What is dropped is exactly the lines behind the last assistant record |
| HistoryPages.PagesExactly | services/orchestrator/astrbot/core/conversation_mgr.py:413-418 | Pages 1 to the total concatenate to all lines, all but the last full and none empty, and nothing follows |
| UsageCounters.Repository.GetOrCreateUsage | modules/job-bot/db.py:375-401 | Creates or resets the row for the current keys, and returns it |
| UsageCounters.Repository.Increment | modules/job-bot/db.py:403-422 | Run through undisturbed, adds one to a counter of the refreshed row |
| UsageCounters.ShownExactly | modules/job-bot/db.py:375-422 | After any history a counter tells the user's increments behind the last call under another key |
| UsageCounters.PeriodExactly | modules/job-bot/db.py:375-422 | It tells all the increments of the current period if and only if the period's key has not come back |
| UsageCounters.AloneAsRepository | modules/job-bot/db.py:375-422 | The requests of one call, in order and undisturbed, do to the row what the two methods do |
| UsageCounters.NoneLostExactly | modules/job-bot/db.py:375-422 | However the requests of calls within a period interleave, insertions, resets and failures included, the counter is never ahead of the increments, and tells them all if and only if every write was told of a row with all the writes before it, none of them wiped by a late reset, and the row is not wiped in the end |
| UsageCounters.TwoCountAsOne | modules/job-bot/db.py:403-422 | Two increments that both look first count as one |
| UsageCounters.ResetWipes | modules/job-bot/db.py:392-401 | At the start of a period a late reset wipes the increment of another call |
| VacancyNotifications.SendVacancyNotifications | modules/job-bot/handlers/job.py:272-301 | The loop sends, records and counts seeker by seeker, and ends at a lookup that raises, as the turn-by-turn function on which the limits are proved |
| VacancyNotifications.SendableExactly | modules/job-bot/services/limits.py:38-55 | A message may be sent if fewer than three have been counted, or fewer than five from three referrals on |
| VacancyNotifications.NeverPastLimit | modules/job-bot/handlers/job.py:272-301 | A send that runs alone never takes a counter past notification_limit, whatever is repeated or fails, even across midnight |
| OverlappingSends.WithinLimitExactly | modules/job-bot/handlers/job.py:282-300 | However the requests and decisions of any number of sends to a user interleave, under whatever clocks and failures, no moment shows more than the limit (or than the beginning did) if and only if no counting is outrun: between the lookup it was allowed on and the lookup of its increment no other turn's write brought the counter to the bound, and none is exempt and counted at the bound |
| OverlappingSends.TwoSendsPass | modules/job-bot/handlers/job.py:282-300 | Two sends that both look before either counts take a counter from 2 to 4 where the limit is 3 |
| OverlappingSends.TwoSendsInTurn | modules/job-bot/handlers/job.py:282-300 | The same through the repository's methods |
| VacancyNotifications.SentExactly | modules/job-bot/services/limits.py:38-55 | Of a send that runs alone, within a day and with none of the user's own turns lost, the user receives exactly the attempts up to what the limit leaves, and the counter grows by as many, whatever happens to others |
| VacancyNotifications.RaisedExactly | modules/job-bot/handlers/job.py:282-286 | An enforced send raises if and only if one of the lookups does |
| VacancyNotifications.ReportedExactly | modules/job-bot/handlers/job.py:281-301 | What is reported as sent is what was received, less the allowed turns that failed behind the sending |
| VacancyNotifications.CountedExactly | modules/job-bot/handlers/job.py:287-300 | Within a day, in a send that runs alone, the counter grows by exactly the messages received if and only if no allowed turn of the user failed behind the sending; otherwise it falls short by those |
| VacancyNotifications.UncountedEscape | modules/job-bot/handlers/job.py:287-300 | Messages whose recording fails are sent and not counted, without bound |

## Left out

- The HTTP, Telegram, database, zip and subprocess parts of both programs, JWT and password handling, and path checks.
- Loading the OpenAPI document from YAML and writing it.
- Floating-point numbers inside JSON: numbers are integers; token counts and times are reals, without rounding.
- Rate limits that change between requests: the runs of LimiterRegistry use fixed limits. `clear()` of the registry.
- Regular expressions as such: the version grammar, delimiter runs, fenced blocks and inline code are matched by functions written for them.
- The resolution of documentation links to wiki pages: the resolver is an arbitrary function from target to target.
- The formatting of group messages, active replies and image captions; the locks of group chat sessions, each of whose critical sections is one step.
- VersionText.CompareVersion: lower-casing of letters outside ASCII is not modelled.
- ConfigIntegrity.CheckConfigIntegrity: configuration and reference are trees that share nothing, or share what an earlier pass made them share, as configurations loaded from JSON do; a dictionary reachable twice within one of them is not covered.
- PlatformStats.SecondMergeExactly: parsing of times, `str()` and `int()` are parameters with stated laws; an `OverflowError` from an infinite count is not modelled.
- Checkpoints.BindCheckpointMessages: fields that the message model ignores or adds by default are not part of an item; missing keys and content of wrong types count as items that do not validate.
- ToolSets.ReplayTells: a tool's active flag does not change while it is in a set.
- IdleTimers.TimersSafe: the steps of get_booter may come at any time, which covers all its interleavings and some that do not happen; the early return for local and disabled runtimes, and a process restart, are left out.
- Conversations.ConversationManager.Resume: the content and titles of conversations and the callbacks after a deletion are left out; a call that raises ends the task without a step of its own.
- Conversations.SoundExactly: operations of different sessions that overlap, and operations that fail half-way, are not covered.
- HistoryPages.GetHumanReadableContext: records without the keys the code indexes raise in Python and are not modelled; the text of a record is taken as given.
- UsageCounters.PeriodExactly: repository calls do not interleave across a change of period; UsageCounters.NoneLostExactly covers every interleaving within one, and OverlappingSends.WithinLimitExactly any. The scheduled resets, which can wipe counts made just after a period starts, are left out. A row that is inserted starts with empty counters and is never deleted.
- VacancyNotifications.SendVacancyNotifications: what the messenger and the store do for each seeker is a parameter; a call that raises changes nothing but, possibly, the reset of the row it looked up.
- VacancyNotifications.NeverPastLimit: nothing else counts for the user meanwhile; overlapping sends are the subject of OverlappingSends.WithinLimitExactly, with one referral count for all decisions.
- VacancyNotifications.SentExactly: nothing else counts for the user meanwhile.
- VacancyNotifications.CountedExactly: nothing else counts for the user meanwhile; UsageCounters.NoneLostExactly says what overlapping increments lose.
- MarkdownPages.SegmentsAgainExactly: it is about a stretch between two code blocks; new targets that would open or close a fenced block are not followed across the page.
- The buffering of intermediate agent messages, the conversion of schemas for one vendor, the middleware, prompts, command-line tools and the dashboard: wiring or easy members.
