# kliksigurnost rule engine, modelled in Dafny

kliksigurnost is a DNS-filtering service. Each user owns a few block rules
on a remote secure-web gateway, and a local table mirrors them. The service
keeps one derived "allow-all" rule per user whose traffic expression
negates everything the user's block rules block. Users are placed on
gateway accounts holding at most 50 users, and enrolled by adding their
email to the account's enrollment include-list. The service also raises
notifications for stale devices and blocked queries, books support calls,
and confirms emailed tokens.

This project models that core:

- the policy synchroniser and the allow-all composer, with its parser and
  serialiser of traffic expressions;
- device de-duplication;
- the account pool and the enrollment include-list;
- local and social sign-up, including the slot claim;
- confirmation tokens;
- support-appointment slots;
- the notification service;
- the variable map of log queries;
- the email recognizer.

How the model is built:

- Every gateway call is an input of type `Remote<T>`. It is `Failed` when
  the call threw, and otherwise carries the part of the reply the service
  reads.
- Repositories are classes whose tables are `map` fields.
- Services are classes holding references to the repositories and other
  services they use.
- The current user, the clock, random suffixes and tokens, and the
  password encoder's output are parameters.
- Instants and date-times are whole seconds since the epoch.
- An exception becomes an outcome value. An operation that throws after
  writing is modelled with the writes it makes before the throw. The
  exception is `register`, which runs in one transaction: when a later step
  throws, it leaves no local write.

Files (one module each):

| file | module | models |
|---|---|---|
| `wrappers.dfy` | `Wrappers` | `Option`, `Remote` |
| `entities.dfy` | `Entities` | rules, users, accounts, devices, logs; policy, user and account tables |
| `traffic_text.dfy` | `TrafficText` | traffic-expression grammar: clause search, `split(" ")`, `Integer.parseInt`, serialiser |
| `allow_all.dfy` | `AllowAll` | `buildAllowAllTrafficString`, `extractBlocked*` |
| `policy_service.dfy` | `PolicyService` | `CloudflarePolicyServiceImpl` |
| `device_service.dfy` | `DeviceService` | `CloudflareDeviceServiceImpl` |
| `account_service.dfy` | `AccountService` | `CloudflareAccountServiceImpl` |
| `email_validator.dfy` | `EmailValidator` | `EmailValidator.test` |
| `confirmation_tokens.dfy` | `ConfirmationTokens` | `ConfirmationTokenServiceImpl`, token lifetimes |
| `registration.dfy` | `Registration` | `AuthenticationServiceImpl.register`, `forgotPassword` |
| `oauth2_login.dfy` | `OAuth2Login` | `CustomOAuth2UserService.loadUser` |
| `appointments.dfy` | `Appointments` | `SupportAppointmentServiceImpl` |
| `notifications.dfy` | `Notifications` | `CloudflareNotificationServiceImpl` |
| `log_query.dfy` | `LogQuery` | `buildGraphQLVariables`, `getLogsForUser`, `getLogsForAccount` |

Entity fields:

- The `ConfirmationToken` entity declares no `tokenType` field, yet
  `AuthenticationServiceImpl` sets one (lines 108 and 170), so the token
  datatype has it.
- The `CloudflarePolicy` entity declares no `isAllowAll` field, yet
  `CloudflarePolicyServiceImpl` reads and sets one (lines 215, 244, 258 and
  318), so the rule datatype has it.
- Appointment times are whole seconds, so `atTime(23, 59, 59)` is exact.
- `NotificationRepository` declares only `findByUser`, `findByUserAndIsSeen`
  and `markNotificationsAsSeen`, yet `CloudflareNotificationServiceImpl`
  also calls `existsByDeviceIdAndIsSeen` (line 153) and
  `countByUserAndIsSeen` (line 117). `ExistsUnseenForDevice` gives the first
  its derived-query meaning: some unseen notification names the device.

## Model

Source paths are relative to the repository root.

| member | source | states |
|---|---|---|
| TrafficText.RunLength | src/main/java/com/kliksigurnost/demo/service/impl/CloudflarePolicyServiceImpl.java:358 | the `[^}]+` run: the length of the longest prefix without `}`; the next character, if any, is `}` |
| TrafficText.MatchAt | src/main/java/com/kliksigurnost/demo/service/impl/CloudflarePolicyServiceImpl.java:358-362 | a match at the start of the text is the literal field, a non-empty group without `}`, then `}`; the group is the text between them |
| TrafficText.FindIsLeftmost | src/main/java/com/kliksigurnost/demo/service/impl/CloudflarePolicyServiceImpl.java:360-362 | `matcher.find()` returns the group of the leftmost position where the pattern matches, and fails iff it matches at no position |
| TrafficText.DropTrailingEmpty | src/main/java/com/kliksigurnost/demo/service/impl/CloudflarePolicyServiceImpl.java:362 | `split` drops trailing empty strings: the result is a prefix of the pieces that does not end with "" |
| TrafficText.ParseInt | src/main/java/com/kliksigurnost/demo/service/impl/CloudflarePolicyServiceImpl.java:364 | `Integer.parseInt` accepts only text starting with a sign or a digit, and yields a 32-bit value |
| TrafficText.ParseIntText | src/main/java/com/kliksigurnost/demo/service/impl/CloudflarePolicyServiceImpl.java:364 | `parseInt` reads back the decimal text `String.valueOf` writes, for every 32-bit integer |
| TrafficText.NatTextValue | src/main/java/com/kliksigurnost/demo/service/impl/CloudflarePolicyServiceImpl.java:334 | the digits written for a natural number denote that number |
| TrafficText.SplitJoin | src/main/java/com/kliksigurnost/demo/service/impl/CloudflarePolicyServiceImpl.java:362 | splitting a space-joined id list on " " gives back the written ids |
| TrafficText.PiecesJoin | src/main/java/com/kliksigurnost/demo/service/impl/CloudflarePolicyServiceImpl.java:362 | splitting space-joined words without spaces gives back the words |
| TrafficText.ParseAllTexts | src/main/java/com/kliksigurnost/demo/service/impl/CloudflarePolicyServiceImpl.java:362-365 | parsing the texts of 32-bit ids adds exactly the set of those ids |
| TrafficText.ClauseMatch | src/main/java/com/kliksigurnost/demo/service/impl/CloudflarePolicyServiceImpl.java:358-362 | the search of a field finds the written id list in a clause of that field |
| TrafficText.ClauseSkip | src/main/java/com/kliksigurnost/demo/service/impl/CloudflarePolicyServiceImpl.java:358-362 | the search of a field skips a clause of any other field |
| TrafficText.FieldSkip | src/main/java/com/kliksigurnost/demo/service/impl/CloudflarePolicyServiceImpl.java:357-397 | no field pattern matches inside another field's text |
| TrafficText.JoinOrFind | src/main/java/com/kliksigurnost/demo/service/impl/CloudflarePolicyServiceImpl.java:360-362 | in an " or "-joined clause list, a field's search finds the first clause of that field, or nothing |
| TrafficText.FindCompose | src/main/java/com/kliksigurnost/demo/service/impl/CloudflarePolicyServiceImpl.java:331-362 | in a composed expression a field's search finds exactly that kind's id list, and nothing when the kind is empty |
| TrafficText.ExtractCompose | src/main/java/com/kliksigurnost/demo/service/impl/CloudflarePolicyServiceImpl.java:331-397 | round trip: extracting any kind from the composed expression yields exactly that kind's ids |
| TrafficText.ComposeEmpty | src/main/java/com/kliksigurnost/demo/service/impl/CloudflarePolicyServiceImpl.java:353 | the composed expression is "" iff all three id lists are empty |
| TrafficText.ExtractAbsent | src/main/java/com/kliksigurnost/demo/service/impl/CloudflarePolicyServiceImpl.java:366-368 | a traffic string without the field adds nothing |
| TrafficText.ExtractFirstOnly | src/main/java/com/kliksigurnost/demo/service/impl/CloudflarePolicyServiceImpl.java:361 | only the first clause of a kind is read; the ids of a second clause of the same kind are ignored |
| TrafficText.ExtractClause | src/main/java/com/kliksigurnost/demo/service/impl/CloudflarePolicyServiceImpl.java:357-397 | a single clause yields its ids for its own kind and nothing for the other two |
| AllowAll.ExtractBlocked | src/main/java/com/kliksigurnost/demo/service/impl/CloudflarePolicyServiceImpl.java:357-397 | `extractBlocked*` adds the ids of the first clause of its kind to the set, or fails as `parseInt` throws |
| AllowAll.ParseAllFailsAt | src/main/java/com/kliksigurnost/demo/service/impl/CloudflarePolicyServiceImpl.java:363-365 | one piece `parseInt` rejects makes the whole extraction throw |
| AllowAll.CollectBlocked | src/main/java/com/kliksigurnost/demo/service/impl/CloudflarePolicyServiceImpl.java:312-324 | the accumulation loop computes `Scan` of the user's rules |
| AllowAll.ScanFails | src/main/java/com/kliksigurnost/demo/service/impl/CloudflarePolicyServiceImpl.java:317-324 | the loop throws iff some non-allow-all rule has a kind whose extraction throws |
| AllowAll.ScanUnion | src/main/java/com/kliksigurnost/demo/service/impl/CloudflarePolicyServiceImpl.java:317-324 | an id is collected for a kind iff some non-allow-all rule's first clause of that kind lists it; allow-all rules contribute nothing |
| AllowAll.ScanUnionSound | src/main/java/com/kliksigurnost/demo/service/impl/CloudflarePolicyServiceImpl.java:317-324 | every collected id comes from some non-allow-all rule |
| AllowAll.ScanUnionComplete | src/main/java/com/kliksigurnost/demo/service/impl/CloudflarePolicyServiceImpl.java:317-324 | every id a non-allow-all rule lists is collected |
| AllowAll.ScanInt32 | src/main/java/com/kliksigurnost/demo/service/impl/CloudflarePolicyServiceImpl.java:312-324 | all collected ids are 32-bit integers |
| AllowAll.Enumerate | src/main/java/com/kliksigurnost/demo/service/impl/CloudflarePolicyServiceImpl.java:334-346 | streaming a set lists each element exactly once |
| AllowAll.Append | src/main/java/com/kliksigurnost/demo/service/impl/CloudflarePolicyServiceImpl.java:337-347 | the builder stays the " or "-join of the clauses written so far; " or " is added only after a non-empty builder |
| AllowAll.JoinOrSnoc | src/main/java/com/kliksigurnost/demo/service/impl/CloudflarePolicyServiceImpl.java:338-344 | appending a clause to a join adds " or " before it exactly when the join was non-empty |
| AllowAll.ComposeTraffic | src/main/java/com/kliksigurnost/demo/service/impl/CloudflarePolicyServiceImpl.java:331-354 | the composed text lists the three id sets in the category, app-type, app-id order |
| AllowAll.BuildAllowAllTrafficString | src/main/java/com/kliksigurnost/demo/service/impl/CloudflarePolicyServiceImpl.java:311-355 | it fails iff some rule's extraction throws; otherwise it is an allow-all text of the union of the ids blocked by the non-allow-all rules |
| AllowAll.AllowAllRoundTrip | src/main/java/com/kliksigurnost/demo/service/impl/CloudflarePolicyServiceImpl.java:331-397 | extracting a kind from an allow-all text gives back exactly the blocked set of that kind |
| AllowAll.AllowAllEmpty | src/main/java/com/kliksigurnost/demo/service/impl/CloudflarePolicyServiceImpl.java:353 | the allow-all text is "" iff nothing is blocked |
| AllowAll.AllowAllShape | src/main/java/com/kliksigurnost/demo/service/impl/CloudflarePolicyServiceImpl.java:331-354 | a non-empty allow-all text is `not(` + the non-empty clauses in fixed order joined by " or " + `)`, each listing exactly its kind's ids |
| AllowAll.ScanRows | src/main/java/com/kliksigurnost/demo/service/impl/CloudflarePolicyServiceImpl.java:279-283 | scanning any listing of the user's rows gives the same result: failure iff some row does not parse, otherwise the blocked ids of the user's table |
| PolicyService.Confirmed | src/main/java/com/kliksigurnost/demo/service/impl/CloudflarePolicyServiceImpl.java:103-111 | a `DELETE`/`PUT` counts as done only when the reply reports `success`; anything else is a gateway error |
| PolicyService.GeneratePolicyName | src/main/java/com/kliksigurnost/demo/service/impl/CloudflarePolicyServiceImpl.java:189-193 | the name is the email, a dash and the 8-character suffix, and nothing else |
| PolicyService.FindRuleNamed | src/main/java/com/kliksigurnost/demo/service/impl/CloudflarePolicyServiceImpl.java:233-249 | the index of the first gateway rule named after the user, or none iff no rule has that name |
| PolicyService.FirstAllowAll | src/main/java/com/kliksigurnost/demo/service/impl/CloudflarePolicyServiceImpl.java:214-216 | the first allow-all row of a listing, or none iff there is none |
| PolicyService.EnsuredFacts | src/main/java/com/kliksigurnost/demo/service/impl/CloudflarePolicyServiceImpl.java:212-270 | every tier returns a stored allow-all rule of the user; only that row is added or changed; a local hit or a failure changes nothing |
| PolicyService.UnpackUpdated | src/main/java/com/kliksigurnost/demo/service/impl/CloudflarePolicyServiceImpl.java:278-309 | a refresh stores the allow-all rule with the composed text before the `PUT`, and ends with the `PUT`'s verdict |
| PolicyService.AllowAllUpdatedFrame | src/main/java/com/kliksigurnost/demo/service/impl/CloudflarePolicyServiceImpl.java:278-309 | a refresh changes at most one row, an allow-all rule of the user |
| PolicyService.AllowAllTextReadsBack | src/main/java/com/kliksigurnost/demo/service/impl/CloudflarePolicyServiceImpl.java:283-287 | the stored allow-all text reads back, kind by kind, as the ids the user's rules block |
| PolicyService.AllowAllUpdatedOk | src/main/java/com/kliksigurnost/demo/service/impl/CloudflarePolicyServiceImpl.java:278-309 | a successful refresh leaves an allow-all rule of the user whose text negates exactly the user's blocked ids |
| PolicyService.RowsBlockedInt32 | src/main/java/com/kliksigurnost/demo/service/impl/CloudflarePolicyServiceImpl.java:312-324 | the ids blocked by a user's table are 32-bit integers |
| PolicyService.PolicyService.CreatePolicy | src/main/java/com/kliksigurnost/demo/service/impl/CloudflarePolicyServiceImpl.java:41-47 | with 10 or more stored rows of the user (allow-all included) it refuses without writing; otherwise it is `createPolicy(policy, user)` |
| PolicyService.PolicyService.CreatePolicyFor | src/main/java/com/kliksigurnost/demo/service/impl/CloudflarePolicyServiceImpl.java:50-81 | nothing is stored unless the POST returns; then the rule, bound to the user and account and renamed, is stored under the returned id and the allow-all rule refreshed |
| PolicyService.PolicyService.CreateDefaultPolicy | src/main/java/com/kliksigurnost/demo/service/impl/CloudflarePolicyServiceImpl.java:176-186 | the default block rule goes through `createPolicy(policy, user)`, so no limit applies |
| PolicyService.PolicyService.DeletePolicy | src/main/java/com/kliksigurnost/demo/service/impl/CloudflarePolicyServiceImpl.java:84-116 | unknown id: not found; another owner: unauthorized; no `success`: gateway error; in these cases nothing changes; otherwise the row is removed and the allow-all rule refreshed |
| PolicyService.IdentitySelector | src/main/java/com/kliksigurnost/demo/service/impl/CloudflarePolicyServiceImpl.java:200 | the identity selector quotes the email, which can be read back from it |
| PolicyService.BuildPolicyRequestBody | src/main/java/com/kliksigurnost/demo/service/impl/CloudflarePolicyServiceImpl.java:195-210 | the body copies action, name, traffic and schedule, is enabled, filters DNS and names the rule's user; it throws iff the rule's user is null |
| PolicyService.PolicyService.UpdatePolicy | src/main/java/com/kliksigurnost/demo/service/impl/CloudflarePolicyServiceImpl.java:119-158 | the same gating as delete; a `PUT` body is built iff the caller owns the rule, and it names that owner; on `success`, exactly action, name, traffic and schedule are copied onto the stored row, then the allow-all rule is refreshed |
| PolicyService.PolicyService.UpdatePolicyAsWritten | src/main/java/com/kliksigurnost/demo/service/impl/CloudflarePolicyServiceImpl.java:119-158 | as written: after the ownership checks, a submitted rule without a user makes the body build throw before the `PUT`, with nothing written; with a user, as `UpdatePolicy` but naming the submitted user |
| PolicyService.PolicyService.EnsureAllowAllPolicyExists | src/main/java/com/kliksigurnost/demo/service/impl/CloudflarePolicyServiceImpl.java:212-276 | the three tiers in order: a local allow-all row; the first gateway rule named after the user, adopted; a new rule named after the user with action "allow" and empty traffic |
| PolicyService.PolicyService.UpdateAllowAllPolicy | src/main/java/com/kliksigurnost/demo/service/impl/CloudflarePolicyServiceImpl.java:278-309 | rows read first, allow-all ensured, its traffic set to the composition of the rows read and stored, then `PUT` |
| Entities.IdsOf | src/main/java/com/kliksigurnost/demo/service/impl/CloudflareLogServiceImpl.java:50-52 | the ids of a listing, position by position |
| Entities.PolicyRepository.FindById | src/main/java/com/kliksigurnost/demo/service/impl/CloudflarePolicyServiceImpl.java:86-87 | the stored row under the id, or none |
| Entities.PolicyRepository.CountByUser | src/main/java/com/kliksigurnost/demo/repository/CloudflarePolicyRepository.java:11 | the number of stored rows owned by the user; 0 iff the user owns none |
| Entities.PolicyRepository.FindByUser | src/main/java/com/kliksigurnost/demo/repository/CloudflarePolicyRepository.java:10 | every row of the user exactly once, and only rows of the user |
| Entities.AccountRepository.FindByAccountId | src/main/java/com/kliksigurnost/demo/repository/CloudflareAccountRepository.java:10 | the stored account under the id, or none |
| Entities.AccountRepository.FindFirstByUserNumIsLessThan | src/main/java/com/kliksigurnost/demo/repository/CloudflareAccountRepository.java:11 | a stored account with fewer users than the bound, or none iff every account is at or above it |
| Entities.AccountRepository.FindAllIds | src/main/java/com/kliksigurnost/demo/service/impl/CloudflareNotificationServiceImpl.java:89-96 | every stored account id exactly once |
| DeviceService.ParseLastSeen | src/main/java/com/kliksigurnost/demo/service/impl/CloudflareDeviceServiceImpl.java:118-123 | a missing time is the minimum instant, a parsed one its instant; malformed text throws |
| DeviceService.IsNewerStrictOrder | src/main/java/com/kliksigurnost/demo/service/impl/CloudflareDeviceServiceImpl.java:107-116 | "newer" is irreflexive, asymmetric and transitive |
| DeviceService.AbsentIsOldest | src/main/java/com/kliksigurnost/demo/service/impl/CloudflareDeviceServiceImpl.java:119-121 | a device without a last-seen time is never newer, and every device seen after the minimum instant is newer than it |
| DeviceService.DedupOf | src/main/java/com/kliksigurnost/demo/service/impl/CloudflareDeviceServiceImpl.java:79-102 | every kept entry points at a listed device of its serial; every delete names a listed device's id |
| DeviceService.DedupKeys | src/main/java/com/kliksigurnost/demo/service/impl/CloudflareDeviceServiceImpl.java:83-98 | a serial is kept iff it is non-empty and some mapped device has it |
| DeviceService.DedupCount | src/main/java/com/kliksigurnost/demo/service/impl/CloudflareDeviceServiceImpl.java:87-98 | deletes + distinct serials = devices with a non-empty serial |
| DeviceService.KeptNotOutdatedByLater | src/main/java/com/kliksigurnost/demo/service/impl/CloudflareDeviceServiceImpl.java:90-95 | no later device of the serial is newer than the kept one |
| DeviceService.KeptNewerThanEarlier | src/main/java/com/kliksigurnost/demo/service/impl/CloudflareDeviceServiceImpl.java:90-95 | every earlier readable device of the serial is strictly older than the kept one (ties keep the first) |
| DeviceService.KeptIsFirstLatest | src/main/java/com/kliksigurnost/demo/service/impl/CloudflareDeviceServiceImpl.java:90-111 | with readable times the kept device has the latest time, and it is the first one with that time |
| DeviceService.DeletedNotKept | src/main/java/com/kliksigurnost/demo/service/impl/CloudflareDeviceServiceImpl.java:91-94 | a deleted device is never the kept one, and no device is deleted twice |
| DeviceService.DeduplicatedSerials | src/main/java/com/kliksigurnost/demo/service/impl/CloudflareDeviceServiceImpl.java:83-104 | the output has one device per non-empty serial of the listing and no device without a serial |
| DeviceService.ProcessDevices | src/main/java/com/kliksigurnost/demo/service/impl/CloudflareDeviceServiceImpl.java:72-105 | the output is the de-duplicated listing and the deletes are those of the de-duplication, in order |
| DeviceService.Values | src/main/java/com/kliksigurnost/demo/service/impl/CloudflareDeviceServiceImpl.java:104 | the values of the serial map, each once |
| DeviceService.DeviceService.GetDevicesByUser | src/main/java/com/kliksigurnost/demo/service/impl/CloudflareDeviceServiceImpl.java:42-70 | de-duplicated devices; `isSetUp` flips to true only if it was false, the user owns rules and the list is non-empty; stale-device notices added |
| AccountService.FirstWarp | src/main/java/com/kliksigurnost/demo/service/impl/CloudflareAccountServiceImpl.java:176-180 | the first app of type "warp" |
| AccountService.FirstPrecedenceOne | src/main/java/com/kliksigurnost/demo/service/impl/CloudflareAccountServiceImpl.java:199-203 | the first policy with precedence 1 |
| AccountService.FirstEnrolling | src/main/java/com/kliksigurnost/demo/service/impl/CloudflareAccountServiceImpl.java:197-205 | the first warp app that has a precedence-1 policy |
| AccountService.WarpIdOf | src/main/java/com/kliksigurnost/demo/service/impl/CloudflareAccountServiceImpl.java:171-190 | no id iff the listing is not OK or has no warp app |
| AccountService.EnrollmentPolicyIdOf | src/main/java/com/kliksigurnost/demo/service/impl/CloudflareAccountServiceImpl.java:192-215 | no id iff the listing is not OK or no warp app has a precedence-1 policy |
| AccountService.NewEnrollmentBody | src/main/java/com/kliksigurnost/demo/service/impl/CloudflareAccountServiceImpl.java:217-229 | name "Allow", decision "allow", include-list of just the email |
| AccountService.EmailsOfMember | src/main/java/com/kliksigurnost/demo/service/impl/CloudflareAccountServiceImpl.java:135-143 | the kept emails are exactly those of entries with an email key |
| AccountService.EmailsOfCount | src/main/java/com/kliksigurnost/demo/service/impl/CloudflareAccountServiceImpl.java:135-143 | one email is kept per entry with an email key, without de-duplication |
| AccountService.EmailsOfAppend | src/main/java/com/kliksigurnost/demo/service/impl/CloudflareAccountServiceImpl.java:135-143 | the filter keeps the original order |
| AccountService.AddEmailBody | src/main/java/com/kliksigurnost/demo/service/impl/CloudflareAccountServiceImpl.java:128-148 | the `PUT` body is named "Allow" with decision "allow" and ends with the new email |
| AccountService.AccountService.FindWarpApplicationId | src/main/java/com/kliksigurnost/demo/service/impl/CloudflareAccountServiceImpl.java:171-190 | the search loop returns `WarpIdOf` |
| AccountService.AccountService.FindEnrollmentPolicyId | src/main/java/com/kliksigurnost/demo/service/impl/CloudflareAccountServiceImpl.java:192-215 | the nested search loop returns `EnrollmentPolicyIdOf` |
| AccountService.AccountService.CreateAccount | src/main/java/com/kliksigurnost/demo/service/impl/CloudflareAccountServiceImpl.java:30-49 | a stored account returns its id with no gateway call; a new one is saved with `userNum` 0 and looked-up-or-created application and policy ids |
| AccountService.AccountService.UpdateEnrollmentPolicyAddEmail | src/main/java/com/kliksigurnost/demo/service/impl/CloudflareAccountServiceImpl.java:109-114 | `userNum` goes up by exactly 1 only after the `PUT` returns; if it throws, nothing is saved |
| AccountService.AccountService.UpdatePolicyWithEmail | src/main/java/com/kliksigurnost/demo/service/impl/CloudflareAccountServiceImpl.java:116-159 | `GET` then `PUT` of the kept emails followed by the new one; no `PUT` when the `GET` fails |
| EmailValidator.IndexOf | src/main/java/com/kliksigurnost/demo/helper/EmailValidator.java:12 | the first position of a character |
| EmailValidator.LastIndexOf | src/main/java/com/kliksigurnost/demo/helper/EmailValidator.java:12 | the last position of a character |
| EmailValidator.Test | src/main/java/com/kliksigurnost/demo/helper/EmailValidator.java:18-23 | null is rejected |
| EmailValidator.DottedIff | src/main/java/com/kliksigurnost/demo/helper/EmailValidator.java:12 | `w(\.w)*` over a class is the same as: non-empty, class characters and dots, no dot first or last, no two dots in a row |
| EmailValidator.SplitPoints | src/main/java/com/kliksigurnost/demo/helper/EmailValidator.java:12 | in a matching address the '@' is the first '@' and the dot before the top-level label is the last '.' |
| EmailValidator.RecognizedInLanguage | src/main/java/com/kliksigurnost/demo/helper/EmailValidator.java:12-22 | every string the recognizer accepts is in the language of `EMAIL_REGEX` |
| EmailValidator.InLanguageRecognized | src/main/java/com/kliksigurnost/demo/helper/EmailValidator.java:12-22 | every string of the language is accepted |
| EmailValidator.RecognizesIff | src/main/java/com/kliksigurnost/demo/helper/EmailValidator.java:12-22 | the recognizer accepts exactly the whole-string matches of `EMAIL_REGEX` |
| EmailValidator.AcceptedShape | src/main/java/com/kliksigurnost/demo/helper/EmailValidator.java:12-22 | an accepted address has exactly one '@' and ends with a dot and 2 to 7 ASCII letters |
| ConfirmationTokens.ConfirmOutcome | src/main/java/com/kliksigurnost/demo/service/impl/ConfirmationTokenServiceImpl.java:27-43 | confirmed iff found, not yet confirmed and not expired; unknown and already-confirmed tokens are refused |
| ConfirmationTokens.NewToken | src/main/java/com/kliksigurnost/demo/service/impl/AuthenticationServiceImpl.java:166-176 | a fresh unconfirmed token whose lifetime depends on its type |
| ConfirmationTokens.TokenLifetime | src/main/java/com/kliksigurnost/demo/service/impl/AuthenticationServiceImpl.java:105-111 | a verification token confirms iff used within 30 minutes, a reset token within 15 |
| ConfirmationTokens.ConfirmOnce | src/main/java/com/kliksigurnost/demo/service/impl/ConfirmationTokenServiceImpl.java:31-40 | a confirmed token is refused as already confirmed at any later time |
| ConfirmationTokens.TokenRepository.FindByToken | src/main/java/com/kliksigurnost/demo/service/impl/ConfirmationTokenServiceImpl.java:28 | the stored token under the text, or none |
| ConfirmationTokens.ConfirmationTokenService.Save | src/main/java/com/kliksigurnost/demo/service/impl/ConfirmationTokenServiceImpl.java:21-24 | stores the token and returns it unchanged |
| ConfirmationTokens.ConfirmationTokenService.ConfirmToken | src/main/java/com/kliksigurnost/demo/service/impl/ConfirmationTokenServiceImpl.java:27-43 | the result is `ConfirmOutcome` of the stored token; a refusal changes nothing; a confirmation stores the token with `confirmedAt` = now |
| Registration.NewUser | src/main/java/com/kliksigurnost/demo/service/impl/AuthenticationServiceImpl.java:142-151 | a local user with role USER, not set up, not locked, not yet enabled, bound to the account |
| Registration.CapacityKept | src/main/java/com/kliksigurnost/demo/service/impl/AuthenticationServiceImpl.java:65-73 | binding to an account below 50 users keeps every account at or below 50 |
| Registration.AuthenticationService.Screen | src/main/java/com/kliksigurnost/demo/service/impl/AuthenticationServiceImpl.java:57-68 | the three refusals in order (invalid email, email taken, no account below 50) and the slot otherwise |
| Registration.AuthenticationService.Enroll | src/main/java/com/kliksigurnost/demo/service/impl/AuthenticationServiceImpl.java:70-83 | either the enrollment add, the user, the token and the default rule all go through, or no local table changes |
| Registration.AuthenticationService.Register | src/main/java/com/kliksigurnost/demo/service/impl/AuthenticationServiceImpl.java:54-86 | each refusal in order with no state change; on success the user is bound to an account that had fewer than 50 users, which gains one |
| Registration.AuthenticationService.ForgotPassword | src/main/java/com/kliksigurnost/demo/service/impl/AuthenticationServiceImpl.java:103-120 | unknown email: nothing; otherwise exactly one reset token, valid for 15 minutes, is stored |
| OAuth2Login.ProviderOf | src/main/java/com/kliksigurnost/demo/config/oauth2/CustomOAuth2UserService.java:41-48 | "google" and "facebook" map to their provider; any other id is unsupported |
| OAuth2Login.NewSocialUser | src/main/java/com/kliksigurnost/demo/config/oauth2/CustomOAuth2UserService.java:65-73 | a social user: role USER, enabled, not set up, provider of the registration |
| OAuth2Login.OAuth2UserService.Screen | src/main/java/com/kliksigurnost/demo/config/oauth2/CustomOAuth2UserService.java:41-61 | unsupported provider, locked user, or no slot refuse; a known user is returned; a new user gets an account below 50 |
| OAuth2Login.OAuth2UserService.SignUp | src/main/java/com/kliksigurnost/demo/config/oauth2/CustomOAuth2UserService.java:75-79 | enrollment add, then user save, then default rule; each write happens only after the previous step |
| OAuth2Login.OAuth2UserService.LoadUser | src/main/java/com/kliksigurnost/demo/config/oauth2/CustomOAuth2UserService.java:34-83 | the refusals in order; an existing unlocked user signs in without claiming a slot; a new one is created on an account below 50 |
| Appointments.DateOf | src/main/java/com/kliksigurnost/demo/service/impl/SupportAppointmentServiceImpl.java:81 | the day a date-time falls on |
| Appointments.CandidatesWithinHours | src/main/java/com/kliksigurnost/demo/service/impl/SupportAppointmentServiceImpl.java:56-72 | the 16 candidates lie on the date between 08:00 and 15:30, 30 minutes apart |
| Appointments.TimesBetween | src/main/java/com/kliksigurnost/demo/repository/SupportAppointmentRepository.java:11 | exactly the booked times within the closed interval |
| Appointments.Filter | src/main/java/com/kliksigurnost/demo/service/impl/SupportAppointmentServiceImpl.java:82-90 | a stream filter keeps exactly the elements passing the test |
| Appointments.FilterIncreasing | src/main/java/com/kliksigurnost/demo/service/impl/SupportAppointmentServiceImpl.java:82-90 | filtering keeps the order |
| Appointments.IncreasingSameElements | src/main/java/com/kliksigurnost/demo/service/impl/SupportAppointmentServiceImpl.java:82-90 | an ascending list is determined by its elements |
| Appointments.Free | src/main/java/com/kliksigurnost/demo/service/impl/SupportAppointmentServiceImpl.java:98-105 | a time is available iff it is at least 2 hours ahead and no appointment lies within 29 minutes either side |
| Appointments.BookingKeepsSpacing | src/main/java/com/kliksigurnost/demo/service/impl/SupportAppointmentServiceImpl.java:32-40 | booking an available time keeps all appointments more than 29 minutes apart |
| Appointments.BookingKeepsOneUpcoming | src/main/java/com/kliksigurnost/demo/service/impl/SupportAppointmentServiceImpl.java:36-40 | booking keeps every user at one upcoming appointment at most |
| Appointments.ListedYetRefused | src/main/java/com/kliksigurnost/demo/service/impl/SupportAppointmentServiceImpl.java:75-105 | a listed slot can be refused: listing drops only exact clashes, booking keeps 29 minutes clear |
| Appointments.AppointmentRepository.Save | src/main/java/com/kliksigurnost/demo/service/impl/SupportAppointmentServiceImpl.java:40 | the appointment is stored under a fresh identity |
| Appointments.SupportAppointmentService.CandidateSlots | src/main/java/com/kliksigurnost/demo/service/impl/SupportAppointmentServiceImpl.java:66-72 | the while loop produces the 16 candidates in ascending order |
| Appointments.SupportAppointmentService.GetAvailableSlots | src/main/java/com/kliksigurnost/demo/service/impl/SupportAppointmentServiceImpl.java:54-91 | ascending, and a slot is listed iff it is a candidate of the date, no appointment starts at it, and, for today, it is more than 2 hours ahead |
| Appointments.SupportAppointmentService.ScheduleAppointment | src/main/java/com/kliksigurnost/demo/service/impl/SupportAppointmentServiceImpl.java:30-41 | unavailable time refused first, then a user with an upcoming appointment; otherwise saved under the current user's email |
| LogQuery.Variables | src/main/java/com/kliksigurnost/demo/service/impl/CloudflareLogServiceImpl.java:166-191 | account, start, limit and order always present; policy filter iff ids non-empty; decision iff non-zero; upper bound the last time iff both cursor parts are given |
| LogQuery.LogService.GetLogsForUser | src/main/java/com/kliksigurnost/demo/service/impl/CloudflareLogServiceImpl.java:40-62 | the query filters by exactly the ids of the user's rules, and by rule at all iff the user owns one |
| LogQuery.LogService.GetLogsForAccount | src/main/java/com/kliksigurnost/demo/service/impl/CloudflareLogServiceImpl.java:65-85 | unknown account fails; otherwise the query never filters by rule |
| Notifications.SeenMarked | src/main/java/com/kliksigurnost/demo/repository/NotificationRepository.java:17-19 | the bulk update sets `isSeen` on exactly the listed stored rows and changes nothing else |
| Notifications.NotificationIds | src/main/java/com/kliksigurnost/demo/service/impl/CloudflareNotificationServiceImpl.java:107-110 | the ids of a listing, position by position |
| Notifications.NotificationRepository.Save | src/main/java/com/kliksigurnost/demo/service/impl/CloudflareNotificationServiceImpl.java:162 | a notice is stored under the next identity |
| Notifications.NotificationRepository.ExistsUnseenForDevice | src/main/java/com/kliksigurnost/demo/service/impl/CloudflareNotificationServiceImpl.java:153 | whether an unseen notice names the device |
| Notifications.NotificationRepository.FindUnseenByUser | src/main/java/com/kliksigurnost/demo/repository/NotificationRepository.java:15 | every unseen notice of the user exactly once, and nothing else |
| Notifications.FirstUnparsed | src/main/java/com/kliksigurnost/demo/service/impl/CloudflareNotificationServiceImpl.java:149-151 | the first device whose last-seen text `Instant.parse` rejects |
| Notifications.DeviceNotice | src/main/java/com/kliksigurnost/demo/service/impl/CloudflareNotificationServiceImpl.java:154-160 | unseen, type DEVICE, naming the device, for the user, stamped now |
| Notifications.LogNotice | src/main/java/com/kliksigurnost/demo/service/impl/CloudflareNotificationServiceImpl.java:67-79 | unseen, type LOG, no device, for the rule's owner, stamped with the log's time |
| Notifications.FirstUndated | src/main/java/com/kliksigurnost/demo/service/impl/CloudflareNotificationServiceImpl.java:61-79 | the first qualifying log whose time does not parse |
| Notifications.NoticesExact | src/main/java/com/kliksigurnost/demo/service/impl/CloudflareNotificationServiceImpl.java:61-84 | a page's notices are exactly those of its blocked queries by stored rules |
| Notifications.NoticesCount | src/main/java/com/kliksigurnost/demo/service/impl/CloudflareNotificationServiceImpl.java:61-84 | one notice per qualifying log |
| Notifications.SweepVariables | src/main/java/com/kliksigurnost/demo/service/impl/CloudflareNotificationServiceImpl.java:42-59 | the sweep asks for the window [now − 5 min, now], blocked decisions only, no rule filter |
| Notifications.PageSound | src/main/java/com/kliksigurnost/demo/service/impl/CloudflareNotificationServiceImpl.java:61-84 | a page keeps old rows and adds only notices of its qualifying logs, under new ids |
| Notifications.PageComplete | src/main/java/com/kliksigurnost/demo/service/impl/CloudflareNotificationServiceImpl.java:61-84 | when every qualifying log is dated, each has its notice |
| Notifications.NumberedAt | src/main/java/com/kliksigurnost/demo/service/impl/CloudflareNotificationServiceImpl.java:82 | saving a sequence of notices numbers them consecutively and leaves older rows alone |
| Notifications.DeviceNoticeSaved | src/main/java/com/kliksigurnost/demo/service/impl/CloudflareNotificationServiceImpl.java:149-165 | saving a stale device's notice keeps the invariant of the device loop |
| Notifications.SavedDistinct | src/main/java/com/kliksigurnost/demo/service/impl/CloudflareNotificationServiceImpl.java:153-163 | the unseen-notice guard keeps added notices to one per device |
| Notifications.SweepStep | src/main/java/com/kliksigurnost/demo/service/impl/CloudflareNotificationServiceImpl.java:47-86 | each account's page keeps the sweep's invariant |
| Notifications.NotificationService.CreateNotificationForDevices | src/main/java/com/kliksigurnost/demo/service/impl/CloudflareNotificationServiceImpl.java:148-166 | only stale devices without an unseen notice get one, at most one per device; every stale device processed ends with an unseen notice; a repeat adds nothing; an unparsable time stops the loop |
| Notifications.NotificationService.MarkNotificationsAsSeen | src/main/java/com/kliksigurnost/demo/service/impl/CloudflareNotificationServiceImpl.java:122-133 | all or nothing: any listed notice of another user refuses with no change; otherwise exactly the listed rows become seen |
| Notifications.NotificationService.DeleteNotification | src/main/java/com/kliksigurnost/demo/service/impl/CloudflareNotificationServiceImpl.java:136-145 | unknown id: not found; another owner: unauthorized; otherwise exactly that row is deleted |
| Notifications.NotificationService.GetUnseenNotificationsByUser | src/main/java/com/kliksigurnost/demo/service/impl/CloudflareNotificationServiceImpl.java:105-113 | returns the user's unseen notices and marks exactly those as seen |
| Notifications.NotificationService.NotifyBlocked | src/main/java/com/kliksigurnost/demo/service/impl/CloudflareNotificationServiceImpl.java:61-85 | the page's notices, in log order, under consecutive ids, up to the first undated qualifying log |
| Notifications.NotificationService.NotifyLog | src/main/java/com/kliksigurnost/demo/service/impl/CloudflareNotificationServiceImpl.java:62-83 | one log: skipped unless blocked by a stored rule; an undated one throws; otherwise its notice is saved |
| Notifications.NotificationService.CheckBlockedContent | src/main/java/com/kliksigurnost/demo/service/impl/CloudflareNotificationServiceImpl.java:39-87 | old rows are kept; every added row is the notice of a qualifying log of some stored account's page; success means every account's query returned |

## Findings

| source | as written | input that shows it | evidently intended | confidence | as-written member | corrected member |
|---|---|---|---|---|---|---|
| src/main/java/com/kliksigurnost/demo/service/impl/CloudflarePolicyServiceImpl.java:132 | `updatePolicy` passes the submitted rule to `buildPolicyRequestBody`, which reads `policy.getUser().getEmail()` (line 200). The rule arrives through `@RequestBody` at `CloudflareController.java:69-73`, and its `user` field is a `@JsonBackReference` (`CloudflarePolicy.java:22-23`), which is not filled from a standalone body. | the owner updates one of their own rules through `PUT /{policyId}`: the update passes the not-found and ownership checks, then dereferences a null user before the `PUT`, so nothing is updated | the `PUT` body names the current user, who the ownership check has just shown owns the rule | medium, not executed (depends on how the JSON mapper treats back references) | PolicyService.PolicyService.UpdatePolicyAsWritten | PolicyService.PolicyService.UpdatePolicy |

## Left out

- PolicyService.PolicyService.UpdateAllowAllPolicy: a stored rule with null traffic is not modelled, because `Policy.traffic` is a non-null string. Such a row can arise: `createUserPolicy` and `updateUserPolicy` bind the whole request body, and `updatePolicy` copies its traffic as is (line 143). The refresh would then throw in `pattern.matcher(null)` (lines 320 and 360) after the ensure step, keeping that step's writes. Every later refresh for the user would throw in the same way until the row is removed.
- Notifications.NotificationService.CheckBlockedContent: its contract does not say that every qualifying log of every page gets its notice. That is stated per page by `NotifyBlocked` and `PageComplete`, not for the whole sweep.
- HTTP transport and JSON: `MakeApiCall` and response parsing are not modelled. Request bodies are modelled only for `updatePolicy` (`RuleBody`). A gateway call is its outcome, given as an input.
- The GraphQL query text and `mapLogsToCloudflareLogs` are left out. A page of logs is a parameter.
- Mail sending, templates and log output have no effect on the model.
- Concurrency is not modelled: the unguarded read of a free slot followed by a separate increment, and the `@Scheduled` timer. Every call runs alone.
- `Instant.now()`, `LocalDateTime.now()`, UUIDs and the password encoder are parameters. The encoded password is a given string.
- Date parsing is not modelled. `Instant.parse` and `ZonedDateTime.parse(…, ISO_DATE_TIME)` accept different texts. Last-seen and log times are given already parsed, or as unparsable.
- Notification messages are kept as the values they are built from (`Message`), not as formatted text. `MessageText` renders them.
- HashSet and HashMap iteration orders are unspecified in Java:
  - the allow-all text lists each id set in some order (`Enumerates`);
  - the de-duplicated devices come out in some order;
  - the sweep visits the account ids in some order.
- Unicode digits accepted by `Integer.parseInt` are not modelled. Only ASCII digits and signs are.
- User equality (`equals` on `User`) is equality of emails.
- `getDevicesByUser` with a null device list throws in Java. The model treats a missing listing as a failure with no change.
- PolicyService.PolicyService.UpdatePolicy: models the intended `updatePolicy`, whose `PUT` body names the current user. This is the only update path: `CloudflareController.updateUserPolicy` calls it. The code as written is `UpdatePolicyAsWritten`; see "## Findings".
- `verifyAccount`, `resetPassword` and `authenticate` are not modelled. They are JWT and password handling outside the core.
- Pass-through reads are not modelled as separate members:
  - `getAllAccounts`, `getPoliciesByUser`, `getAllPolicies`;
  - `getNotificationsByUser`, `getUnseenNotificationCountByUser`;
  - `getAppointmentsForUser`, `getAllAppointmentsBetween`.
- `deleteAppointment` is modelled only as `AppointmentRepository.DeleteById`.
- The token table is keyed by token text. The numeric identity column of `ConfirmationToken` is not modelled.
- `loadUser` with a null email attribute is not modelled. The email is a given string.
- `super.loadUser` is left out. It fetches the provider's user attributes.
- A client-supplied appointment id is replaced by a fresh identity, as for a new entity.
- Times are whole seconds. Nanoseconds are dropped.
- `deleteDevice` is left out. Its gateway replies are ignored by the source, so the model records only the ids whose deletion is requested.
- `getEnrollmentPolicyId` may return a precedence-1 policy of a different warp app than the one `getWarpApplicationId` returned. The model keeps that behaviour.
- `createEnrollmentApplication` and `createEnrollmentPolicy` are modelled only through the ids their replies carry.
