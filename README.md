# Fitness-coaching app data layer, modelled in Dafny

This project models the backend data layer of a fitness-coaching web
application. There are two document tables.

- **Plans** (`plans.ts`): workout and diet plans, each owned by one user and
  carrying an `isActive` flag. `createPlan` first deactivates every active
  plan of the user. It then inserts the new plan with whatever flag the
  caller passed, and returns the new id. `getUserPlans` lists one user's
  plans, newest first.
- **Users** (`users.ts`): one profile per identity-provider user (`clerkId`).
  `syncUser` inserts a profile only if none with that `clerkId` exists.
  `updateUser` patches the first profile with that `clerkId`, or does nothing.

Each table is a class (`Plans.PlanTable`, `Users.UserTable`). Its documents
are a `seq` in insertion order, which stands in for the engine's
creation-time order. Ids come from a fresh natural-number counter, so they
ascend with insertion order; `Valid()` records this. Each mutating method
is tied to a pure function of the old table (`AfterCreate`, `Synced`,
`Updated`). The source's promises are proved as the `ensures` of those
functions and as lemmas about them.

The lookups of the database library become plain sequence functions:

- `ActivePlans` is the `withIndex(...).filter(...).collect()` query.
- `GetUserPlans` is the `order("desc")` query.
- `FindFirst` is `.first()`.

`PatchInactive` is `patch(id, {isActive: false})`. `createPlan`'s loop over
the collected plans is a `for` loop in `PlanTable.CreatePlan` that applies
that patch to one document per step.

Three details of `users.ts` shape the model of `updateUser`:

- `updateUser` passes its whole argument object to `patch`, so it writes
  `clerkId` as well as the profile fields. The written value is always the
  matching record's own `clerkId`, and `Updated` proves that it keeps its
  value.
- When `image` is omitted, the argument object has no `image` key, so the
  stored image is kept.
- `updateUser` returns the result of `patch`, which carries no value, so
  `UpdateUser` returns nothing.

## Model

| member | source | states |
|---|---|---|
| `Plans.ActivePlans` | plans.ts:36-40 | the query returns exactly the plans of the user whose flag is set |
| `Plans.PatchInactive` | plans.ts:44 | one `patch(id, {isActive: false})` keeps the table's length and clears the flag of the document with that id only; all other fields and documents are unchanged |
| `Plans.Deactivated` | plans.ts:42-45 | deactivation changes only the `isActive` field; it becomes false for each of the user's plans and stays as it was for everyone else's |
| `Plans.PatchedActiveAreDeactivated` | plans.ts:36-45 | patching each document the query returned, by id, gives exactly the table with the user's plans deactivated, because ids are unique |
| `Plans.AfterCreate` | plans.ts:36-50 | createPlan adds exactly one record and it holds the caller's arguments; other users' plans are unchanged; old records change at most in `isActive`; the user has an active plan afterwards exactly when the new one was created active, and then that new one is the only one |
| `Plans.PlanTable.CreatePlan` | plans.ts:34-51 | the returned id is fresh and names the appended record; the new table is `AfterCreate` of the old one; ids stay ascending and below the counter; if no user had two active plans before, none has afterwards |
| `Plans.CreatePlanKeepsOneActive` | plans.ts:36-48 | if no user had two active plans before createPlan, none has afterwards |
| `Plans.GetUserPlans` | plans.ts:54-63 | the result holds exactly the user's records, with ids strictly decreasing (newest first), and is empty when the user has no plans |
| `Plans.UserPlansDetermined` | plans.ts:57-60 | any list of exactly the user's plans in newest-first order is the getUserPlans result, so that result is reverse insertion order |
| `Plans.CreatedPlanListedFirst` | plans.ts:36-60 | right after createPlan, getUserPlans lists the new plan first and every other plan of that user as inactive |
| `Plans.TwoWeeksScenario` | plans.ts:36-62 | creating "Week 1" then "Week 2", both active, for one user makes getUserPlans return [Week 2 active, Week 1 inactive] under two distinct ids |
| `Users.FindFirst` | users.ts:12-15 | the lookup returns the position of the oldest record with the clerkId, or nothing exactly when no record has it |
| `Users.Synced` | users.ts:11-19 | syncUser keeps every existing record; it appends one record with the caller's fields exactly when the clerkId is new; afterwards the clerkId is registered |
| `Users.UserTable.SyncUser` | users.ts:4-21 | returns nothing and changes nothing when the clerkId exists; otherwise appends the record and returns its fresh id |
| `Users.SyncIdempotent` | users.ts:12-19 | a second syncUser with the same clerkId leaves the table as the first left it |
| `Users.SyncTwiceLeavesOne` | users.ts:11-19 | two syncUser calls with a clerkId that no record had leave exactly one record with it |
| `Users.Patched` | users.ts:38 | patching a record with the arguments keeps its id, writes the given name, email and clerkId, and replaces the image only when one is supplied |
| `Users.Updated` | users.ts:30-38 | updateUser keeps the record count, every id and every clerkId; with no match the table is unchanged; with a match, only the first matching record changes: it gets the new name and email, and the new image when one is supplied |
| `Users.UserTable.UpdateUser` | users.ts:23-40 | the new table is `Updated` of the old one, and no id is handed out |
| `Users.UpdateKeepsCounts` | users.ts:31-38 | updateUser creates and removes no record for any clerkId |
| `Users.UpdateIdempotent` | users.ts:31-38 | repeating updateUser with the same arguments changes nothing further |

## Left out

- The page components (`page.tsx`, `page (1).tsx`) and the voice-call session controller are left out. They are markup and callbacks into an external voice SDK, not data-layer logic.
- The `mutation`/`query` wrappers and argument validation by `v.*` validators are not modelled. The framework enforces the validation, so the argument shapes appear only as Dafny datatypes.
- Storage-engine ids are opaque strings. Here they are natural numbers from a counter, which is the freshness the engine guarantees.
- `_creationTime` is not modelled. Insertion order stands in for it, so the index orders (`by_user_id`, `by_clerk_id`, ties broken by creation time) become table order.
- Concurrent `createPlan` or `syncUser` calls are not modelled, nor is the race in which two of them both insert. The model is single-writer and sequential.
- Failures of lookups, patches and inserts are not modelled. The source does not handle them; they fail the whole request.
- `sets`, `reps` and `dailyCalories` are JavaScript floating-point numbers. They are modelled as `int` because they are only stored, never computed on.
