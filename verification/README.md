# gulp-categorizer: the category resolver, modelled in Dafny

gulp-categorizer wraps `gulp.task`. A task name such as `a:b:c` names the
task `c` inside category `a:b`, which in turn sits inside category `a`. Every
registration through the wrapper records such names as *pending categories*:
a map from category name to the ordered, duplicate-free list of its members
(tasks or sub-categories). If a task with a category's name is later
registered, it absorbs that category's members as extra dependencies. A
category may not be extended once a task of that name exists. Finally,
`makeCategoryTasks` registers every category that is still pending as a gulp
task whose dependencies are its members.

The model is functional. One instance's closure state (`separator`,
`taskCategoryMap`, `taskNames`) is the `CategoryRegistry.State` datatype.
Each call that the wrapper makes to the saved `gulp.task` is appended to a
call log in that state. Operations are pure functions from a state to a new
state. `AddTaskToCategory` answers `Failure(conflict)` when it throws and
then changes nothing. `Task` returns an `Outcome` that holds the conflict, if
any, in `thrown` and, in `state`, the state the throw leaves behind.

Modules, leaf first:

- `Wrappers` (wrappers.dfy): `Option` and `Result`.
- `NameParser` (name_parser.dfy): separator search, `getTaskCategoryName`, `getAllTaskCategoryNames`.
- `CategoryRegistry` (category_registry.dfy): the state, its invariant `Valid`, `addTaskToCategory`.
- `TaskRegistrar` (task_registrar.dfy): `task`.
- `Finalizer` (finalizer.dfy): `makeCategoryTasks`.
- `Scenarios` (scenarios.dfy): the registration sequence of `tests/existing-category-depends.js`.

The central invariant is `CategoryRegistry.Valid`: no pending category is
the name of a registered task, and every member list is non-empty and has no
duplicates. `Create` establishes it. `AddTaskToCategory` and `Task` preserve
it, whether they succeed or throw.

Facts about the code that the model keeps as they are:

- `makeCategoryTasks` neither empties the pending map nor records the category names in `taskNames`, so calling it twice registers every category twice.
- When `task` throws, nothing is rolled back: the pending category it removed stays removed, and the links added before the throw stay.
- For one-character separators, the last element of `getAllTaskCategoryNames(n)` is proved equal to `getTaskCategoryName(n)` (`SingleCharLastIsParent`). With a separator that can overlap itself, such as `"::"`, they can differ: for `":::"` they do (`OverlappingSeparatorsDisagree`). A longer separator that cannot overlap itself, such as `"->"`, agrees on the example `"a->b"` (`NonOverlappingSeparatorAgrees`).

## Model

| member | source | states |
|---|---|---|
| NameParser.IndexOfSpec | src/main.js:35-40 | `indexOf(sep, from)` finds nothing exactly when no occurrence starts at or after `from`; otherwise it finds an occurrence and none starts between `from` and it |
| NameParser.LastIndexBeforeSpec | src/main.js:26 | the backward search finds nothing exactly when no occurrence starts before the bound; otherwise it finds an occurrence with no later one before the bound |
| NameParser.ParentCategory | src/main.js:23-30 | `getTaskCategoryName(n)` is null exactly when the separator does not occur in `n`; otherwise it is the strict prefix of `n` ending where the last occurrence starts |
| NameParser.CategoriesFromIsScan | src/main.js:38-41 | the scan yields one prefix per separator it finds, each ending where its separator starts. Found separators do not overlap, no other separator is skipped, and none remains after the last one |
| NameParser.AllCategoriesSpec | src/main.js:32-44 | `getAllTaskCategoryNames(n)` is empty exactly when `n` has no separator; each element is a strict prefix of `n` and of every later element |
| NameParser.GetAllTaskCategoryNames | src/main.js:34-44 | the `while` loop over `indexOf` collects exactly the ancestor categories `AllCategories` describes |
| NameParser.SingleCharCountFrom | src/main.js:38-41 | with a one-character separator, the scan from any position yields as many categories as there are separator characters from that position on |
| NameParser.SingleCharCount | src/main.js:35-41 | with a one-character separator, `getAllTaskCategoryNames(n)` has one element per separator occurrence in `n` |
| NameParser.SingleCharLastIsParent | src/main.js:25-41 | with a one-character separator, the deepest ancestor category is `getTaskCategoryName(n)` |
| NameParser.NonOverlappingSeparatorAgrees | src/main.js:26-40 | with separator "->" and name "a->b", the deepest ancestor and the parent category are both "a" |
| NameParser.OverlappingSeparatorsDisagree | src/main.js:26-40 | with separator "::" and name ":::", the ancestor list is [""] while the parent category is ":" and the separator occurs twice |
| NameParser.DocumentedExamples | src/main.js:23-34 | "a:b:c" has ancestors ["a", "a:b"] and parent "a:b"; "a" has no parent |
| CategoryRegistry.Create | src/main.js:12-19 | a new instance uses the `categorySeparator` option as its separator when that is a non-empty string, and ":" when it is absent or empty. It has nothing pending, no task names and no calls, and satisfies the invariant |
| CategoryRegistry.AddTaskToCategory | src/main.js:46-59 | throws a naming conflict exactly when the category is a task name, even if the member is already listed. Otherwise it appends an absent member (creating the list) and answers true, or answers false with nothing changed |
| CategoryRegistry.AddTaskToCategoryValid | src/main.js:49-58 | a successful add preserves the invariant and leaves the member listed. Other lists are untouched, lists only grow at their end, and task names and the call log are unchanged |
| CategoryRegistry.AddTaskToCategoryIdempotent | src/main.js:52-56 | repeating a successful add answers false and changes nothing |
| TaskRegistrar.ChainCategories | src/main.js:79-90 | the adds along the ancestor chain go into exactly the ancestor categories, in order |
| TaskRegistrar.LinkAllOutcome | src/main.js:78-90 | the chain of adds completes exactly when no category it adds to is a task name; a throw names such a category |
| TaskRegistrar.LinkAllGrows | src/main.js:78-90 | the chain of adds keeps every existing list as a prefix of its new value, and creates keys only for the categories it adds to |
| TaskRegistrar.LinkAllFrame | src/main.js:78-90 | the chain of adds leaves every category no add names exactly as it was: the same members, and pending exactly when it was before, whether the chain completes or throws |
| TaskRegistrar.LinkAllExtends | src/main.js:78-90 | after a completed chain of adds into distinct categories, each category holds its old list, extended by its added member if that member was absent, and nothing more |
| TaskRegistrar.LinkAllLinks | src/main.js:78-90 | after a chain of adds that completed, every member added is listed under its category |
| TaskRegistrar.LinkAllStopsAtFirstConflict | src/main.js:78-90 | the chain throws at the first add whose category is a task name; its error is that add's conflict, and every earlier add has taken effect |
| TaskRegistrar.LinkAllThrowState | src/main.js:78-90 | a chain that throws at its `j`-th add leaves exactly the state its first `j` adds produce, and those `j` adds complete: no later add takes effect |
| TaskRegistrar.LinkAllValid | src/main.js:78-90 | the chain of adds preserves the invariant |
| TaskRegistrar.Task | src/main.js:61-94 | `task` removes a same-named pending category and forwards the caller's dependencies followed by its members. It throws exactly when an ancestor of the name is a task name, and then leaves task names and calls alone. Otherwise it appends the name and logs exactly one registration. The name is never left pending. Categories other than the name and its ancestors keep their members and their pending status, whether it succeeds or throws |
| TaskRegistrar.TaskLinksChain | src/main.js:75-90 | after a successful `task`, every ancestor is a member of the ancestor before it, and the task is a member of its deepest ancestor |
| TaskRegistrar.TaskExtendsChain | src/main.js:75-90 | after a successful `task`, each ancestor's list is its old list extended by its chain successor (the next ancestor, or the task for the deepest one) when that was absent, and by nothing else |
| TaskRegistrar.TaskThrowsAtFirstConflict | src/main.js:75-92 | when ancestor `j` is the first that is a task name, `task` throws the conflict of adding the next chain element to it. Each ancestor before `j` has gained exactly its successor (if that was absent) and is linked to its parent; the ancestors from `j` on keep their lists |
| TaskRegistrar.TaskPreservesValid | src/main.js:68-92 | `task` preserves the invariant whether it succeeds or throws, so no pending category is ever a registered task name |
| Finalizer.MakeCategoryTasks | src/main.js:96-102 | in whatever order the keys are visited, exactly one call (category, its members) is logged per pending category. The pending map and the task names are unchanged |
| Finalizer.RepeatedRunsEmitTheSameCalls | src/main.js:98-102 | two runs over the same pending map log the same calls |
| Scenarios.RegisterABC | tests/existing-category-depends.js:3 | registering "a:b:c" first leaves "a" pending with ["a:b"] and "a:b" with ["a:b:c"] |
| Scenarios.RegisterABD | tests/existing-category-depends.js:4 | registering "a:b:d" next appends it to "a:b" and leaves "a" as it was |
| Scenarios.RegisterA | tests/existing-category-depends.js:6-7 | the explicit task "a" is registered with dependencies ["a:b"], and "a" is no longer pending |
| Scenarios.RegisterAEF | tests/existing-category-depends.js:9-10 | "a:e:f" then throws the conflict of adding "a:e" to "a", and nothing changes |
| Scenarios.ExistingCategoryDepends | tests/existing-category-depends.js:3-10 | the first three registrations succeed with the states above, and the fourth throws |
| Scenarios.CategoriesAfterExplicitA | src/main.js:98-102 | after the first three registrations, materialising the categories registers "a:b" alone, with dependencies ["a:b:c", "a:b:d"] |

## Left out

- The missing-`gulp` guard and its `console.error` (src/main.js:4-7): console output with no logic.
- What the real `gulp.task` does and what it returns (src/main.js:93, 100): gulp is a foreign library. Its calls are recorded in the state's log, and `task`'s return value is not modelled.
- Task functions: a task function is an opaque `BodyId` handle and is never inspected.
- Array aliasing: `makeCategoryTasks` passes gulp the live member array of each category (src/main.js:100), and `task` forwards the caller's own dependency array (src/main.js:93). A later `addTaskToCategory` push (src/main.js:55) therefore grows a list gulp already holds. The model's `Call` records a copy of the list at the time of the call, so such later growth is not reflected in the log.
- String units: JavaScript's `indexOf`, `lastIndexOf` and `substring` (src/main.js:26, 29, 35, 39-40) count UTF-16 code units. The model counts Dafny characters, so it matches the source only for names and separators without surrogate pairs. A separator made of a lone surrogate cannot be represented.
- Runtime type dispatch on the second argument of `task` (src/main.js:63-66): modelled as an optional dependency list. `None` means the caller passed the task function in that position. Calling `task` with neither a list nor a function is not modelled.
- Inherited object properties: `taskCategoryMap` is a plain object, so names such as `constructor` or `__proto__` would find properties it inherits. The model treats it as a plain dictionary.
- Key order of `for...in` (src/main.js:99): left open. `MakeCategoryTasks` may visit the keys in any order, and its contract states the set of calls, not their order.
- `categorySeparator` values that are not strings: only strings are modelled (`None` for an absent option).
- The `debug` option passed by tests/_common.js:2: src/main.js never reads it.
- The test harness tests/_common.js, including `makeImplicitTasks`, which src/main.js does not define.
- Warnings for calling `makeCategoryTasks` twice or never, and process-exit hooks: the code has none.
