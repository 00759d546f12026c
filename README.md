# SRV resolution of psycopg connection parameters

This is a Dafny model of psycopg's `_dns` module. It covers `resolve_srv` and
the `Rfc2782Resolver` behind it.

Given the connection parameters (and the environment), the resolver works in
four steps:

- It builds the list of attempts (`_get_attempts`). Each attempt is a
  `HostPort`: one host and one port, taken from the comma-separated `host` and
  `port` values. A single port applies to every host. An attempt is flagged for
  SRV lookup when the host looks like `_service._proto.target` or the port is
  the word `srv` in any case.
- It looks up each flagged attempt. The answers become endpoints
  (`_get_solved_entries`):
  - no answer falls back to the target;
  - a single answer naming the root domain aborts that attempt;
  - otherwise the answers are put in the priority/weight order of RFC 2782
    section "Usage rules" (`sort_rfc2782`).
- It keeps the attempts that are not flagged as they are.
- It writes the endpoints back as comma-joined `host` and `port` values
  (`_return_params`).

The new `host` and `port` values are comma-joins of the endpoints' hosts and
ports. The two lists split back into one item per endpoint whenever no host
holds a comma (`Resolver.ReturnParamsLists`). Hosts passed through unchanged
and fallback targets are always comma-free, because they come from
`split(",")`. Only a DNS answer target can hold a comma (`_dns.py:218`). That
comma is copied into the joined `host` value, which then has more items than
`port` (`Resolver.CommaInTarget`). Without such a target, both lists have one
item per endpoint (`Resolver.ResolveLists`).

There are two errors: a host/port count mismatch, and no endpoint at all.
Setting `hostaddr` disables the whole resolution.

Files and modules:

| file | module | contents |
|---|---|---|
| `wrappers.dfy` | `Wrappers` | `Option` and `Result` |
| `text.dfy` | `Text` | the Python string operations the module relies on: `split(",")`, `",".join`, `lower() == "srv"`, `rstrip(".")`, `str(int)` |
| `records.dfy` | `Records` | `HostPort`, the SRV answer record, the two `OperationalError`s |
| `srv_pattern.dfy` | `SrvPattern` | the `re_srv_rr` pattern, as a matcher proved sound and complete against a declarative shape |
| `attempts.dfy` | `Attempts` | `_get_attempts`, as a specification function and as the loop that it specifies |
| `rfc2782.dfy` | `Rfc2782` | `sort_rfc2782`: the dict of tiers, the weight sort, and the weighted-draw loop with its inner cumulative-sum loop |
| `resolver.dfy` | `Resolver` | `_get_solved_entries`, `_resolve_srv`, `_return_params`, `resolve` |

The resolver has no state, so it is not a class. The parameter and
environment dictionaries are `map<string, string>`.

The DNS query is a parameter `lookup: string -> seq<SrvRecord>`. A query that
raises `DNSException` is the empty answer, as in the source.

`randint(0, total_weight)` is a nondeterministic choice in that range. The
tier method returns the draws it made as a ghost value. Its output is pinned
to a pure function of those draws (`Rfc2782.Drawn`, with `Rfc2782.Left` for
the entries still left). `Rfc2782.IsRfc2782Order` collects every order that
`sort_rfc2782` can return: each priority tier comes out as a single answer
unchanged, or as the outcome of some valid sequence of draws over the
weight-sorted tier.

## Model

| member | source | states |
|---|---|---|
| `Text.Join` | psycopg/psycopg/_dns.py:230-231 | `",".join`: no pieces give the empty string; the first piece is a prefix of the result; the result has no comma exactly when there is at most one piece and that piece has no comma |
| `Text.Lower` | psycopg/psycopg/_dns.py:178 | `lower()` (also used at line 207) keeps the length, leaves no upper-case ASCII letter, lower-cases each upper-case letter and changes nothing else |
| `Text.Split` | psycopg/psycopg/_dns.py:159-162 | `split(",")` always yields at least one piece; no piece holds a comma; joining the pieces with commas gives the input back |
| `Records.Message` | psycopg/psycopg/_dns.py:170-171 | the texts raised at lines 170-171 and 227: "no host found after SRV RR lookup"; a mismatch message is "cannot match ", the host count in decimal, " hosts with ", the port count in decimal and " port numbers" |
| `Text.SplitOfJoin` | psycopg/psycopg/_dns.py:229-231 | splitting the comma-join of comma-free pieces gives exactly those pieces back |
| `Text.SrvPortCases` | psycopg/psycopg/_dns.py:178 | `port.lower() == "srv"` holds exactly for the eight spellings of "srv" in upper and lower case |
| `Text.RStripDots` | psycopg/psycopg/_dns.py:218 | `rstrip(".")` yields a prefix of the name that does not end in a dot; everything it removed is dots |
| `Text.NatToString` | psycopg/psycopg/_dns.py:218 | `str(entry.port)` is a non-empty run of digits that parses back to the port, with no leading zero except for 0 itself |
| `SrvPattern.MatchSrv` | psycopg/psycopg/_dns.py:117 | `re_srv_rr.match(host)` as called at line 177: a matched `target` group is non-empty, holds no newline, and is made of characters of the host |
| `SrvPattern.MatchSrvSound` | psycopg/psycopg/_dns.py:117 | a match means the host is `service.proto.rest`: both labels start with `_` and hold no dot, and the target group is the line-head of `rest` (regex `.` excludes a newline) and is non-empty |
| `SrvPattern.MatchSrvComplete` | psycopg/psycopg/_dns.py:117 | every host of that shape matches, and the target group is the line-head of its rest |
| `SrvPattern.MatchSrvIff` | psycopg/psycopg/_dns.py:117 | the pattern matches if and only if the host has the shape |
| `SrvPattern.MatchSrvExample` | psycopg/psycopg/_dns.py:177-180 | the literal host `_postgresql._tcp.db.example.com` matches, with target `db.example.com` |
| `Attempts.Setting` | psycopg/psycopg/_dns.py:156-161 | the connection parameter if present, else its environment variable if present, else the empty string; `HostAddrArg`, `HostArg` and `PortArg` apply it to `hostaddr`/`PGHOSTADDR`, `host`/`PGHOST` and `port`/`PGPORT` |
| `Attempts.MatchPorts` | psycopg/psycopg/_dns.py:164-172 | a single port is repeated once per host; any other count succeeds exactly when it equals the host count; a mismatch error carries both counts |
| `Attempts.Classify` | psycopg/psycopg/_dns.py:177-183 | the record keeps host and port; it is flagged exactly when the pattern matches or the port is "srv" in any case; its target is the match's group (absent without a match), non-empty and made of characters of the host |
| `Attempts.ClassifySpec` | psycopg/psycopg/_dns.py:176-183 | an attempt keeps its host and port; it is flagged exactly when the host has the SRV shape or the port is "srv" in any case; its target is the parsed target for an SRV-shaped host and absent otherwise |
| `Attempts.ClassifyAll` | psycopg/psycopg/_dns.py:176-184 | one attempt per host/port pair, in input order, each classified on its own |
| `Attempts.Attempts` | psycopg/psycopg/_dns.py:149-186 | a non-empty hostaddr (parameter, else `PGHOSTADDR`) gives no attempts; a mismatch error is passed through; non-empty attempts are the classified list with at least one flagged; empty attempts mean no position was flagged |
| `Attempts.SinglePortBroadcast` | psycopg/psycopg/_dns.py:164-166 | with one port there is never a mismatch, and every attempt carries that port |
| `Attempts.NoSrvNoAttempts` | psycopg/psycopg/_dns.py:175-186 | with no SRV-shaped host and no "srv" port, the attempts are empty (or the mismatch error) |
| `Attempts.AttemptsCommaFree` | psycopg/psycopg/_dns.py:159-183 | every attempt's host, port and target is free of commas, since hosts and ports are pieces of `split(",")` |
| `Attempts.ClassifyLoop` | psycopg/psycopg/_dns.py:174-185 | the `for host, port in zip(...)` loop builds the classified list, and `srv_found` is set exactly when some attempt is flagged |
| `Attempts.GetAttempts` | psycopg/psycopg/_dns.py:149-186 | the imperative `_get_attempts` computes exactly `Attempts` |
| `Rfc2782.SumZero` | psycopg/psycopg/_dns.py:250 | the total weight is zero exactly when every weight in the tier is zero |
| `Rfc2782.CumWeightAll` | psycopg/psycopg/_dns.py:250-255 | `csum` after the whole tier equals `total_weight` |
| `Rfc2782.CumWeightMonotone` | psycopg/psycopg/_dns.py:253-255 | `csum` never decreases along the tier |
| `Rfc2782.Without` | psycopg/psycopg/_dns.py:259-260 | `del entries[i]` removes one occurrence of that entry and lowers the total weight by its weight |
| `Rfc2782.FirstReachingSpec` | psycopg/psycopg/_dns.py:252-257 | for every draw in `[0, total_weight]` the selected index is in bounds, its cumulative weight reaches the draw, and no earlier cumulative weight does |
| `Rfc2782.FirstReachingUnique` | psycopg/psycopg/_dns.py:254-257 | at most one index reaches a draw first |
| `Rfc2782.DrawableIff` | psycopg/psycopg/_dns.py:249-257 | some draw selects index `j` if and only if `j` is the first index or its weight is positive |
| `Rfc2782.PickIndex` | psycopg/psycopg/_dns.py:253-257 | the inner `csum` loop stops at the first index whose cumulative weight reaches the draw, and at the last index when none does |
| `Rfc2782.Drawn` | psycopg/psycopg/_dns.py:251-260 | after k draws, k entries are emitted; together with the entries left they are the tier |
| `Rfc2782.WalkStep` | psycopg/psycopg/_dns.py:251-260 | one more draw emits the selected entry and removes it from those left; a draw within the weight left keeps every draw within the range `randint` is given |
| `Rfc2782.DrawOne` | psycopg/psycopg/_dns.py:252-260 | one turn of the `while entries` loop: exactly one draw `r` in `[0, total_weight]` is added; the entry it selects is appended to the output and removed from `entries`, and its weight is taken off `total_weight`; the state stays that of the draws made |
| `Rfc2782.SortByWeight` | psycopg/psycopg/_dns.py:249 | the sorted tier is a permutation of the tier in ascending weight |
| `Rfc2782.SortByWeightStable` | psycopg/psycopg/_dns.py:249 | the sort is stable: the entries of each weight keep their relative order |
| `Rfc2782.DrawTier` | psycopg/psycopg/_dns.py:249-260 | the draw loop keeps `total_weight` equal to the weight left and ends; every draw lies in `[0, total_weight]`; the output is the walk of those draws over the sorted tier and a permutation of the tier |
| `Rfc2782.TierMembers` | psycopg/psycopg/_dns.py:241-242 | a tier holds answers of the input with its priority only |
| `Rfc2782.GroupByPriority` | psycopg/psycopg/_dns.py:238-242 | the dict has one key per priority present; each bucket is the answers of that priority in input order; every answer's priority is a key |
| `Rfc2782.Ascending` | psycopg/psycopg/_dns.py:244 | `sorted(priorities.items())`: the keys in strictly ascending order, each once |
| `Rfc2782.EmitTier` | psycopg/psycopg/_dns.py:244-247 | emitting the tier of the smallest pending priority keeps the output in non-decreasing priority and moves exactly that tier out of the pending answers |
| `Rfc2782.EmitTierDrawn` | psycopg/psycopg/_dns.py:244-260 | emitting a tier in its draw order leaves every tier emitted before it in its own draw order, and makes the new tier of the output exactly the emitted order |
| `Rfc2782.OrderTier` | psycopg/psycopg/_dns.py:245-260 | a single-answer tier is emitted as it is; a larger one in the order of the weighted draws; either way a permutation of the tier |
| `Rfc2782.SortRfc2782` | psycopg/psycopg/_dns.py:234-262 | the output is a permutation of the answers with non-decreasing priorities, and the answers of each priority appear in it as a single answer unchanged or in the order of valid weighted draws over that tier sorted by weight |
| `Rfc2782.WalkZero` | psycopg/psycopg/_dns.py:251-260 | when every weight is zero, every valid draw is 0, the entries drawn are the first ones in order and those left are the rest |
| `Rfc2782.SortByWeightZero` | psycopg/psycopg/_dns.py:249 | the stable weight sort leaves a tier of zero weights as it is |
| `Rfc2782.ZeroWeightTier` | psycopg/psycopg/_dns.py:245-260 | a tier whose answers all weigh zero comes out in the order the DNS gave it |
| `Rfc2782.ZeroWeightsKeepOrder` | psycopg/psycopg/_dns.py:234-262 | in every order `sort_rfc2782` can return, a priority whose answers all weigh zero keeps their input order |
| `Rfc2782.ZeroWeightsSinglePriority` | psycopg/psycopg/_dns.py:234-262 | answers of one priority that all weigh zero are returned exactly as given |
| `Rfc2782.ZeroWeightExample` | psycopg/psycopg/_dns.py:234-262 | the answers `(0, 0, "a.", 1)` then `(0, 0, "b.", 2)` are always returned in that order |
| `Resolver.Fallback` | psycopg/psycopg/_dns.py:205-210 | with no answer the result has one plain endpoint (the parsed target with the original port) exactly when a target was parsed and is non-empty and the port is not "srv"; otherwise nothing |
| `Resolver.AnswerToHostPort` | psycopg/psycopg/_dns.py:217-220 | an answer becomes a plain endpoint: its target without trailing dots, and its port in decimal, which parses back to the port |
| `Resolver.ToHostPorts` | psycopg/psycopg/_dns.py:217-220 | one endpoint per ordered answer, in the same order |
| `Resolver.SolvedEntries` | psycopg/psycopg/_dns.py:202-220 | no answers give the fallback; a single root-domain answer gives nothing; otherwise the endpoints of an order `sort_rfc2782` can return for the answers |
| `Resolver.SolvedAnswers` | psycopg/psycopg/_dns.py:212-220 | outside the fallback and abort cases there is exactly one plain endpoint per answer, each built from an answer, with a comma-free port |
| `Resolver.ResolveSrv` | psycopg/psycopg/_dns.py:188-193 | the answers for the attempt's host are solved; a failed query counts as no answer |
| `Resolver.ReturnParams` | psycopg/psycopg/_dns.py:222-232 | no endpoint is the "no host found" error and is the only error; otherwise every other parameter is kept and `host` and `port` are the comma-joins of the endpoints' hosts and ports |
| `Resolver.SolvedCommaFree` | psycopg/psycopg/_dns.py:205-220 | with a comma-free attempt and comma-free answer targets, every solved endpoint is comma-free |
| `Resolver.ExpansionCommaFree` | psycopg/psycopg/_dns.py:125-130 | with comma-free attempts and answer targets, every expanded endpoint is comma-free |
| `Resolver.ResolveLists` | psycopg/psycopg/_dns.py:119-132 | when no answer target holds a comma, the new `host` and `port` values split back into the endpoints' hosts and ports, so the two lists have the same length |
| `Resolver.CommaInTarget` | psycopg/psycopg/_dns.py:218-231 | an answer target `a,b.` gives one endpoint whose `host` value splits into two items while `port` splits into one |
| `Resolver.ReturnParamsLists` | psycopg/psycopg/_dns.py:229-231 | with comma-free host names, splitting the new `host` and `port` gives back the endpoint hosts and ports, one item per endpoint, in order |
| `Resolver.Flatten` | psycopg/psycopg/_dns.py:128-130 | an endpoint is in the extended list exactly when some attempt contributed it |
| `Resolver.FlattenEmpty` | psycopg/psycopg/_dns.py:125-130 | the extended list is empty exactly when every attempt contributed nothing |
| `Resolver.NoHostOnlyFromSrv` | psycopg/psycopg/_dns.py:125-132 | "no host found" can only happen when every attempt was flagged for lookup: an attempt that is not flagged always survives |
| `Resolver.Expand` | psycopg/psycopg/_dns.py:125-130 | the loop replaces each flagged attempt with its solved answers, keeps every other attempt, and preserves attempt order |
| `Resolver.Resolve` | psycopg/psycopg/_dns.py:119-132 | `resolve` / `resolve_srv`: the mismatch error is passed through; no attempts return the parameters unchanged (the hostaddr bypass and the no-SRV identity); otherwise the result is `_return_params` of the expanded attempts |

## Left out

- `resolve_async`, `_resolve_srv_async` and `resolve_srv_async`: they repeat the synchronous path with `await`; the model has no concurrency.
- `resolve_hostaddr_async`: a deprecated wrapper of a function in another module (`conninfo`), which is not part of this model.
- The DNS itself: `resolver.resolve(name, "SRV")` is the parameter `lookup`. Caching is not modelled. A `DNSException` is the empty answer.
- `randint`: each draw is any integer in `[0, total_weight]`, chosen nondeterministically. The probability distribution of RFC 2782 is not modelled. What is modelled is the set of orders the draws can reach, tier by tier, and `sort_rfc2782`'s result is proved to be one of them.
- `os.environ`: passed in as a map.
- Parameter values are strings. The `str()` applied to a non-string `port` value (an int, for example) is not modelled.
- `str.lower()` is modelled on ASCII letters only. For the comparison with "srv" this is exact: no other character lowercases to `s`, `r` or `v`.
- The regular expression engine: `re_srv_rr` is modelled by a hand-written matcher for this one pattern, proved equivalent to its shape.
- `str(entry.target)`, the text form of a DNS name: the answer record holds its target as text already.
- `OperationalError` is the `Records.Error` datatype, carried in a `Result`. `Records.Message` gives its text.
