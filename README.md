# Groceries cart: groups, membership and product retention in Dafny

This project models the core of a shopping-list backend. Users join groups
that share stores and products. Each group has a unique six-character code,
an optional admin, a private flag and a blacklist. Products a group has bought
are pruned once the group holds more than 100 products.

- `groups.dfy`, module `Groups` (groups/models.py):
  - group-code generation, a retry loop over a supplied stream of random picks;
  - `Group.save`;
  - `Product.save` with its retention pass;
  - the delete cascades and `SET_NULL` of the foreign keys.

  The datastore is the class `Groups.Database`. It holds one map per table
  (groups, stores, products, users). `Valid()` states the foreign-key
  constraints and the uniqueness of the one-to-one admin column.
- `views.dfy`, module `Views` (core/views.py):
  - the permission table of the user endpoints;
  - validation in `create` and `update`;
  - admin succession when an admin leaves their group;
  - the single-use email verification code;
  - the five-minute email cool-down of the resend and feedback views.

Points where the code's behaviour is easy to mistake:
- `create` does not check a group's private flag or blacklist.
- `update` checks the private flag even when the request names the user's current group.
- The "admin is a member" invariant is not enforced by the code. It is stated as `AdminsAreMembers` and shown to be preserved by updates and deletions.
- Retention deletes min(5, purchased) products, not always 5.

## Model

| member | source | states |
|---|---|---|
| `Groups.Draw` | groups/models.py:41-42 | every drawn candidate is exactly 6 characters, each from `0-9A-Z` |
| `Groups.GenerateUniqueCode` | groups/models.py:40-45 | the returned code is the first drawn candidate not already taken: it is a valid code, not an existing group's code, and every earlier draw was taken; with no free candidate in the stream there is no code |
| `Groups.Database.SaveGroup` | groups/models.py:35-38 | a group with a code keeps it; a group without one gets a fresh valid code unused by any group; the row is written under that code and no other table changes |
| `Groups.ParsePriority` | groups/models.py:56-60 | exactly `L`, `M`, `H` are persisted priority codes |
| `Groups.PriorityRoundTrip` | groups/models.py:56-63 | the persisted one-letter code of a priority reads back as that priority, and each code belongs to only one priority |
| `Groups.EarliestPurchaseExists` | groups/models.py:76 | any non-empty set of purchased products has one bought no later than all the others |
| `Groups.OldestPurchased` | groups/models.py:76 | the eviction query returns min(n, purchased) distinct purchased products of the group, in purchase order, none bought later than a purchased product it leaves out |
| `Groups.Database.SaveProduct` | groups/models.py:70-79 | after the write, at most 100 products in the group means nothing is deleted; more than 100 deletes exactly min(5, purchased) of the group's purchased products, the earliest bought; unpurchased products and other groups' products stay as they were |
| `Groups.Database.SaveStore` | groups/models.py:47-49 | a store row is written under its group; nothing else changes |
| `Groups.DeleteGroupRemovesExactlyTheDangling` | groups/models.py:49-66 | deleting a group removes exactly the rows whose foreign key would no longer resolve: the group's stores, then the products of the group or of a removed store; surviving rows are unchanged; every user keeps its row, with its group pointer nulled when it named the deleted group |
| `Groups.DeleteGroupKeepsConsistent` | groups/models.py:49-66 | deleting a group with its cascades leaves every foreign key intact |
| `Groups.Database.DeleteGroup` | groups/models.py:49-66 | deleting a group removes it, its stores, its products and the products of its stores; its members are left without a group; the datastore stays consistent |
| `Groups.Database.DeleteUser` | groups/models.py:17-30 | deleting a user sets the admin of the group it administered to null and removes it from every blacklist; the products it added are deleted (groups/models.py:67-68); the datastore stays consistent |
| `Groups.Database.SaveUser` | core/views.py:115 | the user row is replaced and no other table changes |
| `Views.PermissionFor` | core/views.py:31-45 | AllowAny exactly for staff or `create`; IsAdminUser exactly for non-staff `list`; IsUsersProfileOrGroupAdmin exactly for non-staff `update`/`partial_update`; IsAuthenticated for non-staff `retrieve` and every other action |
| `Views.CreateUser` | core/views.py:49-63 | a bad password and a missing group are reported together and change nothing; otherwise a user is stored under an unused id in the named group |
| `Views.NextId` | core/views.py:61 | the id given to a new row is above every id in use |
| `Views.UpdateRejection` | core/views.py:79-101 | an update is let through exactly when the user exists, the password is absent or valid, the named group exists, and it is neither private nor blacklists the user. An unknown user is reported first. A bad password or a missing group always gives the 400 answer, which names exactly which of the two failed. Next comes a private group, then the blacklist |
| `Views.HandOver` | core/views.py:107-114 | when an admin leaves: with other members, one of them becomes admin and nothing else changes; with none, the group is deleted with its stores and products and the leaver loses its membership. Afterwards no group names the leaver as admin. While every admin is a member of its group, the hand-over always succeeds and keeps that so; a failed one changes nothing |
| `Views.UpdateUser` | core/views.py:78-116 | each rejection of the validation is returned and leaves every table unchanged. A request that passes validation succeeds while every admin is a member of its group. On success only the user's membership changes among the users. Staying, or leaving as a non-admin, leaves all groups as they were. Leaving as admin runs the hand-over |
| `Views.Get` | core/views.py:145 | a lookup yields the single matching row, or reports no row or several rows |
| `Views.VerificationCodeIsSingleUse` | core/views.py:144-150 | after a successful verification, the same email and code match no user |
| `Views.VerifyEmailCode` | core/views.py:135-157 | the one user matching the email and code becomes verified and loses its code, so the code cannot verify twice; a pair matching no user changes nothing |
| `Views.CoolDownFor` | core/views.py:169-174 | a request within 5 minutes of the last email waits. The remaining time splits as minutes*60 + seconds with 0 <= seconds < 60. For a stamp not in the future, minutes is below 5, or exactly 5 with 0 seconds |
| `Views.CoolDownAnswer` | core/views.py:205-216 | the feedback answer is "sent" exactly when no email was sent before or at least 300 s have passed; otherwise the refusal carries the time left as minutes*60 + seconds, with 0 <= seconds < 60 |
| `Views.ResendAnswer` | core/views.py:167-187 | a verified user is told so, and only a verified one. An unverified user is sent an email exactly when none was sent before or at least 300 s have passed. Otherwise the refusal carries the time left as minutes*60 + seconds, with 0 <= seconds < 60 |
| `Views.ResendVerificationEmail` | core/views.py:159-190 | unknown and duplicate emails are reported; otherwise the answer follows the user's verification flag and cool-down, and nothing is persisted |
| `Views.ResendVerificationEmailStamped` | core/views.py:170-186 | the resend view with its stamp saved: a sent email sets `last_email_sent` to now; any other answer changes nothing |
| `Views.Feedback` | core/views.py:192-219 | within the cool-down nothing changes; otherwise `last_email_sent` of that user becomes now and nothing else changes |
| `Views.ResendTwiceAsWritten` | core/views.py:179 | two resend requests one minute apart both go out |
| `Views.ResendTwiceStamped` | core/views.py:179 | with the stamp saved, the second request is refused with 4 minutes 0 seconds left |

## Findings

| source | as written | input that shows it | evidently intended | confidence | as-written member | corrected member |
|---|---|---|---|---|---|---|
| core/views.py:179 | the resend view sets `last_email_sent` on the loaded user but never saves it, so the cool-down never starts | an unverified user with no stamp asks at t=1000 s and t=1060 s: both emails are sent | save the stamp, as the feedback view does at core/views.py:219, so the second request is refused with 4 min 0 s left | high, not executed | `Views.ResendTwiceAsWritten` (over `Views.ResendVerificationEmail`) | `Views.ResendTwiceStamped` (over `Views.ResendVerificationEmailStamped`) |

## Left out

- HTTP responses, status codes, the DRF serializers and `serializer.is_valid`. Rejections are values of `Views.Rejection`, `Views.VerifyOutcome` and `Views.SendOutcome`.
- Token issuance (`RefreshToken`), `LoginView` and `authenticate`. They belong to libraries outside the model.
- Email sending (`send_email`), the welcome email of core/signals.py and the `print` calls of the feedback view. They are output only.
- groups/migrations/0008_alter_group_users_blacklist.py. It is a schema change with no behaviour.
- `is_valid_password` (core/functions.py) is not part of this model. It is the parameter `isValidPassword`.
- The body of `IsUsersProfileOrGroupAdmin` (core/permissions.py) is not part of this model. Only the class chosen by the table is modelled.
- Randomness. `get_random_string` is a supplied stream of picks, six per draw. The source loops forever when every candidate is taken; `GenerateUniqueCode` then returns no code once the stream is used up.
- Wall-clock time is whole seconds. The float `total_seconds()` and the `int()` truncation of the message are not modelled.
- Which member `members.exclude(...).first()` picks is left open. `UpdateUser` takes some member other than the departing user. Ties in `order_by('date_buyed')` are also broken by an unspecified choice.
- Concurrency. Each operation runs alone, so the race between retention's count and its deletions does not arise.
- core/models.py is not part of this model:
  - `User.group` is assumed to be `SET_NULL` when its group is deleted (`Groups.WithoutMembership`);
  - a new user's verification code is a parameter;
  - a new user is unverified and has no `last_email_sent` (the field defaults), as `CreateUser` writes it;
  - emails are not assumed unique, so a lookup matching several users is an error that changes nothing.
- `UpdateUser` models only the membership the serializer writes. The password, username and other fields saved at core/views.py:115 are not modelled.
- `CreateUser` assumes the serializer puts the new user in the group the request names.
- The save methods require the foreign keys of the written row to exist, as the datastore does. The datastore's refusal of a row that breaks them is not modelled. The one exception is the unique admin column during succession (`Views.Rejection.AdminTaken`).
- `Groups.Database.SaveGroup`: outside succession, its `Fits` precondition also demands the unique admin column: the new admin must not already administer another group. A write that breaks it is not modelled.
