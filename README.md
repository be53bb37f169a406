# bacalah categories and tags, modelled in Dafny

This project models the two domain services at the centre of the bacalah document-management API.

**`CategoryService`** keeps a hierarchy of categories:
- each category is a root or has one parent;
- documents point at the category they are filed under;
- the service lists categories, builds the category tree, and creates, renames and re-parents them;
- it refuses any re-parenting that would make a cycle, and refuses to delete a category that still has sub-categories or documents.

**`TagService`** keeps a flat set of tags:
- tag names are unique up to letter case, and are trimmed when a tag is created or renamed;
- it lists tags by name and ranks them by the number of documents that carry them;
- it refuses to delete a tag that is still attached to a document.

Each service is a `class` whose fields are the rows of the tables it uses:
- `categories` / `tags`: entity rows keyed by primary key;
- `rows`: the primary keys, in the ascending order in which the model lists rows;
- `nextId`: the next identity value;
- `documents`: the `CategoryId` column of the documents table;
- `associations`: the `DocumentTags` join rows.

A `Valid()` predicate holds the database invariants:
- the keys in `rows` increase and are exactly the stored keys;
- every foreign key resolves;
- the categories form a forest, meaning every parent chain ends at a root;
- no two tag names agree up to case.

Every write method preserves `Valid()`. Every query is a function whose contract states the rows it returns, except where the source loops or recurses: `IsDescendant`, `MapToTree` and `GetTree` are methods, with the same kind of contract.

Files:
- `wrappers.dfy`: `Option` and `Result`.
- `text.dfy`: .NET `string.Trim`, `ToLower` and ordinal comparison, with their laws.
- `sorting.dfy`: a sort by a total preorder (LINQ `OrderBy`) and LINQ `Take`.
- `rows.dfy`: `Where` over stored rows and row removal.
- `category_forest.dfy`: the parent relation and its theory, covering ancestors, acyclicity, what add, re-parent and delete do to the forest, and the tree DTO.
- `category_service.dfy`: `CategoryService`.
- `tag_service.dfy`: `TagService`.

## Model

| member | source | states |
|---|---|---|
| Text.Trim | bacalah.API/Services/TagService.cs:69 | the result is a contiguous slice of the input, all the characters cut off on either side are .NET white space, and the result neither starts nor ends with white space |
| Text.TrimUnique | bacalah.API/Services/TagService.cs:92 | whenever `s[i..j]` has only white space around it and non-white-space ends, `Trim(s)` is exactly that slice (trimming is determined by the white-space set) |
| Text.TrimFixesTrimmed | bacalah.API/Services/TagService.cs:69 | `Trim(s) == s` exactly when `s` has no leading or trailing white space |
| Text.TrimIdempotent | bacalah.API/Services/TagService.cs:92 | trimming a normalised name again changes nothing |
| Text.TrimEmptyIffWhiteSpace | bacalah.API/Services/TagService.cs:69 | a name trims to empty exactly when it is all white space |
| Text.ToLowerIsCaseFolding | bacalah.API/Services/TagService.cs:54 | lower-casing keeps the length, is idempotent and leaves every character outside `A`..`Z` alone |
| Text.LowerCaseIsFixed | bacalah.Entities/Seed/SeedData.cs:21-25 | a name with no upper-case letters is its own lower-case form (the seeded tag names) |
| Text.LexLeTotal | bacalah.API/Services/TagService.cs:21 | the name order compares any two names |
| Text.LexLeTransitive | bacalah.API/Services/TagService.cs:21 | the name order is transitive |
| Text.LexLeAntisymmetric | bacalah.API/Services/TagService.cs:21 | two names that order both ways are equal |
| Sorting.Insert | bacalah.API/Services/CategoryService.cs:83 | inserting into a sorted sequence adds exactly one occurrence of the element and keeps it sorted |
| Sorting.SortBy | bacalah.API/Services/CategoryService.cs:83 | `OrderBy` returns a permutation of its input that is sorted by the key order |
| Sorting.Take | bacalah.API/Services/TagService.cs:129 | `Take(n)` returns the first `min(max(n, 0), length)` elements, a prefix of the input |
| Sorting.TakeOfSorted | bacalah.API/Services/TagService.cs:127-129 | the prefix of a sorted sequence is sorted, is a sub-multiset, and every element left out sorts no earlier than every element kept |
| Rows.Where | bacalah.API/Services/CategoryService.cs:190 | `Where` keeps exactly the stored rows that satisfy the predicate, and keeps them in key order |
| Rows.Without | bacalah.API/Services/TagService.cs:118 | removing a row leaves exactly the other rows, still in key order |
| Rows.AppendKeepsRows | bacalah.API/Services/CategoryService.cs:113-114 | storing a row under a key above every stored key keeps the rows in key order and adds just that key |
| Rows.RowsCount | bacalah.API/Services/CategoryService.cs:19-23 | a key-ordered row list that lists exactly the table's keys has one entry per key |
| Rows.PermutationKeepsDistinct | bacalah.API/Services/TagService.cs:127-129 | reordering or dropping rows of a duplicate-free list keeps it duplicate-free |
| CategoryForest.NoChildrenIff | bacalah.API/Services/CategoryService.cs:184 | `SubCategories.Any()` is false exactly when no category names this one as parent |
| CategoryForest.NoDocumentsIff | bacalah.API/Services/CategoryService.cs:184 | `Documents.Any()` is false exactly when no document is filed under this category |
| CategoryForest.FreshCategoryIsLeaf | bacalah.API/Services/CategoryService.cs:105-116 | a category stored under a fresh key has no sub-categories and no documents |
| CategoryForest.WellFoundedIsAcyclic | bacalah.API/Services/CategoryService.cs:127-139 | when every parent chain reaches a root, no category is its own ancestor |
| CategoryForest.AncestorStep | bacalah.API/Services/CategoryService.cs:213-221 | one walk step: `a` is above `x` exactly when `a` is above `x`'s parent, given that the parent is not `a` |
| CategoryForest.ChildDescendantsShrink | bacalah.API/Services/CategoryService.cs:83-86 | in an acyclic table a child has strictly fewer descendants than its parent, so the tree mapping terminates |
| CategoryForest.SiblingsUnrelated | bacalah.API/Services/CategoryService.cs:83-86 | in an acyclic table two distinct children of one category are not above one another |
| CategoryForest.AddKeepsForest | bacalah.API/Services/CategoryService.cs:94-113 | adding a fresh category whose parent exists keeps every parent resolvable and every chain ending at a root |
| CategoryForest.ReparentKeepsForest | bacalah.API/Services/CategoryService.cs:128-152 | re-parenting under an existing category that is neither itself nor below it keeps the forest |
| CategoryForest.ReparentUnderDescendantMakesCycle | bacalah.API/Services/CategoryService.cs:130-139 | re-parenting a category under itself or under one of its descendants makes it its own ancestor (the two refused cases really are cycles) |
| CategoryForest.ReparentKeepsForestIff | bacalah.API/Services/CategoryService.cs:128-148 | for an existing parent, the re-parented table is a forest exactly when the parent is neither the category nor below it (the check is both necessary and sufficient) |
| CategoryForest.RemoveLeafKeepsForest | bacalah.API/Services/CategoryService.cs:161-171 | deleting a category without sub-categories keeps the forest |
| CategoryForest.NameOrderIsTotalPreorder | bacalah.API/Services/CategoryService.cs:83 | ordering sub-categories by name is a total preorder |
| CategoryForest.ChildrenMakeTree | bacalah.API/Services/CategoryService.cs:72-89 | a node built from a category's row, its document count and the trees of all its children in name order is a tree DTO of that category |
| CategoryForest.InIdsOf | bacalah.API/Models/CategoryTreeDto.cs:9 | an id occurs in a forest exactly when it occurs in one of its trees |
| CategoryForest.TreeIdsBelow | bacalah.API/Services/CategoryService.cs:72-89 | every id in a category's tree is a stored category at or below it |
| CategoryForest.TreeIdsCover | bacalah.API/Services/CategoryService.cs:72-89 | every category at or below a node occurs in its tree |
| CategoryForest.TreeIdsDistinct | bacalah.API/Services/CategoryService.cs:72-89 | in an acyclic table no category occurs twice in one tree |
| CategoryForest.ForestHoldsEachCategoryOnce | bacalah.API/Services/CategoryService.cs:61-70 | the trees of all roots hold every stored category exactly once, and hold nothing else |
| Categories.SeedCategories | bacalah.Entities/Seed/SeedData.cs:11-16 | the seed holds ids 1 to 4, and they form a forest: Technology and Science are roots, Programming and Database are children of Technology |
| Categories.CategoryService.Seeded | bacalah.Entities/Seed/SeedData.cs:11-16 | the seeded service is valid, holds the seed rows in key order, has next identity 5 and no documents |
| Categories.CategoryService.Summary | bacalah.API/Services/CategoryService.cs:48-58 | the DTO copies the row; `ParentName` is present exactly when asked for and the parent exists, and is then the parent's name; the counts are the numbers of documents and of children |
| Categories.CategoryService.Summaries | bacalah.API/Services/CategoryService.cs:25-35 | one DTO per id, in the order given |
| Categories.CategoryService.SummariesFollowRows | bacalah.API/Services/CategoryService.cs:25-35 | the DTOs of a key-ordered list of rows list exactly those rows, in ascending key order, each with its own DTO |
| Categories.CategoryService.GetAll | bacalah.API/Services/CategoryService.cs:17-36 | exactly one DTO per stored category, in ascending key order, each with its parent's name |
| Categories.CategoryService.GetById | bacalah.API/Services/CategoryService.cs:38-59 | present exactly when the id is stored, and then the category's DTO |
| Categories.CategoryService.ChildRows | bacalah.API/Services/CategoryService.cs:189-190 | exactly the ids whose parent is the given one, in ascending key order |
| Categories.CategoryService.GetSubCategories | bacalah.API/Services/CategoryService.cs:187-205 | exactly one DTO per child of the given id, in ascending key order, with `ParentName` left unset |
| Categories.CategoryService.CanDelete | bacalah.API/Services/CategoryService.cs:175-185 | true exactly when the category exists, no category has it as parent and no document is filed under it |
| Categories.CategoryService.IsDescendant | bacalah.API/Services/CategoryService.cs:207-224 | the walk up the parent chain answers true exactly when the first id is a proper ancestor of the second |
| Categories.CategoryService.MapToTree | bacalah.API/Services/CategoryService.cs:72-89 | the result is the tree DTO of the category: its own fields, its document count, and the trees of all its children sorted by name |
| Categories.CategoryService.GetTree | bacalah.API/Services/CategoryService.cs:61-70 | one tree per root, in ascending key order; every stored category occurs exactly once in the forest |
| Categories.CategoryService.Create | bacalah.API/Services/CategoryService.cs:91-117 | fails exactly when a parent is named that does not exist, and then changes nothing; otherwise it stores a new row under a fresh key with both timestamps `now`, appends the key, keeps the forest acyclic and returns its DTO with zero counts |
| Categories.CategoryService.UpdateCheck | bacalah.API/Services/CategoryService.cs:121-148 | the first refusal in the order of the source's checks; none exactly when the category exists and the parent, if one is named, exists, is not the category and is not below it |
| Categories.CategoryService.Update | bacalah.API/Services/CategoryService.cs:119-157 | fails exactly when the checks refuse, with that error and nothing changed; otherwise only the name, the parent and `UpdatedAt` of that row change, the table stays an acyclic forest, and the result is its DTO |
| Categories.CategoryService.Delete | bacalah.API/Services/CategoryService.cs:159-173 | fails with `HasDependents` exactly when `CanDelete` is false, and then changes nothing; otherwise it removes exactly that row and returns true |
| Categories.RejectCycleOnSeed | bacalah.API/Services/CategoryService.cs:134-139 | on the seed, moving Technology under its child Programming is refused as a descendant parent |
| Categories.CycleScenario | bacalah.API/Services/CategoryService.cs:134-139 | creating Tech, creating Prog under it, then moving Tech under Prog is refused as a descendant parent |
| Categories.DeleteOnSeed | bacalah.API/Services/CategoryService.cs:159-173 | on the seed, deleting Technology fails because it has children, and deleting Science succeeds |
| Tags.AddKeepsUnique | bacalah.API/Services/TagService.cs:69-81 | adding a tag whose name matches none up to case keeps names unique |
| Tags.RenameKeepsUnique | bacalah.API/Services/TagService.cs:93-98 | renaming to a name no other tag has up to case keeps names unique |
| Tags.CollidingAddBreaksUnique | bacalah.API/Services/TagService.cs:71-73 | adding a tag whose name matches an existing one up to case would break uniqueness (the check is necessary) |
| Tags.ByNameIsTotalPreorder | bacalah.API/Services/TagService.cs:21 | ordering by name is a total preorder |
| Tags.ByPopularityIsTotalPreorder | bacalah.API/Services/TagService.cs:127-128 | ordering by descending document count, then by name, is a total preorder |
| Tags.Popular | bacalah.API/Services/TagService.cs:125-130 | the result has `min(max(count, 0), n)` summaries taken from the input; it is ordered by popularity; every summary left out ranks no higher than every one kept |
| Tags.RankedAbove | bacalah.API/Services/TagService.cs:127-129 | a tag missing from the result ranks below every tag in it |
| Tags.PopularExample | bacalah.API/Services/TagService.cs:127-129 | with "tutorial" and "guide" on five documents and "advanced" on two, the top two are "guide" then "tutorial": the tie is broken by name, and the less used tag is cut although its name sorts first |
| Tags.PopularFourExample | bacalah.API/Services/TagService.cs:127-129 | with "alpha", "beta" and "delta" on five documents and "gamma" on two, the top three are "alpha", "beta", "delta"; this follows from the contract of `Popular` alone |
| Tags.FourRanking | bacalah.API/Services/TagService.cs:127-129 | any three of four summaries that meet the contract of `Popular`, where one summary has the lowest count and the other three tie, are the tied three in name order |
| Tags.RankExample | bacalah.API/Services/TagService.cs:127-128 | for two tags tied on count and a third with fewer documents, the popularity order puts the tied pair by name, then the third |
| Tags.SeedTags | bacalah.Entities/Seed/SeedData.cs:19-28 | the seed holds ids 1 to 5, with names unique up to case |
| Tags.TagService.Seeded | bacalah.Entities/Seed/SeedData.cs:19-28 | the seeded service is valid, holds the seed rows in key order, has next identity 6 and no associations |
| Tags.TagService.Summary | bacalah.API/Services/TagService.cs:41-47 | the DTO copies the tag's id, name and creation time, and counts its associations |
| Tags.TagService.Summaries | bacalah.API/Services/TagService.cs:24-30 | one DTO per id, in the order given |
| Tags.TagService.ListedSummaries | bacalah.API/Services/TagService.cs:24-30 | any selection of the stored DTOs lists each tag at most once, and lists its true DTO |
| Tags.TagService.ReorderedSummaries | bacalah.API/Services/TagService.cs:19-24 | any reordering of the stored DTOs lists every tag, and nothing else |
| Tags.TagService.GetAll | bacalah.API/Services/TagService.cs:17-31 | exactly one DTO per stored tag (`ListsEveryTagOnce`: every tag is listed, no tag twice, each with its true DTO), sorted by name |
| Tags.TagService.NameOrderOfAll | bacalah.API/Services/TagService.cs:19-24 | the name ordering of all stored DTOs lists every tag once and is sorted by name |
| Tags.TagService.GetById | bacalah.API/Services/TagService.cs:33-48 | present exactly when the id is stored, and then the tag's DTO |
| Tags.TagService.NameMatches | bacalah.API/Services/TagService.cs:93-94 | exactly the stored tags whose name equals the given one up to case, leaving out the excepted id |
| Tags.TagService.GetByName | bacalah.API/Services/TagService.cs:50-65 | absent exactly when no tag matches up to case; otherwise the one matching tag's DTO (matches are unique) |
| Tags.TagService.GetPopular | bacalah.API/Services/TagService.cs:123-139 | `min(max(count, 0), \|tags\|)` distinct stored-tag DTOs ordered by popularity, with every unlisted tag ranking no higher than every listed one |
| Tags.TagService.PopularOfAll | bacalah.API/Services/TagService.cs:123-139 | the ranking of all stored DTOs has all the `GetPopular` properties |
| Tags.TagService.EveryUnlistedRanksLower | bacalah.API/Services/TagService.cs:127-129 | every stored tag missing from the ranking ranks no higher than each listed tag |
| Tags.TagService.UnlistedRanksLower | bacalah.API/Services/TagService.cs:127-129 | a stored tag missing from the ranking ranks no higher than each listed tag |
| Tags.TagService.Create | bacalah.API/Services/TagService.cs:67-85 | fails with `DuplicateName` exactly when a stored name equals the trimmed name up to case, and then changes nothing; otherwise it stores the trimmed name under a fresh key and returns its DTO with count 0; names stay unique |
| Tags.TagService.Update | bacalah.API/Services/TagService.cs:87-102 | `TagNotFound` for a missing id; otherwise fails with `DuplicateName` exactly when another tag's name equals the trimmed name up to case; on success only that tag's name changes, to the trimmed name |
| Tags.TagService.Delete | bacalah.API/Services/TagService.cs:104-121 | false exactly when the id is missing; fails with `HasDocuments` exactly when the tag has an association; otherwise it removes exactly that row and returns true |
| Tags.CreateCaseVariantOnSeed | bacalah.API/Services/TagService.cs:71-73 | on the seed, creating "Guide" is refused as a duplicate of "guide" |
| Tags.GuideMatchesSeed | bacalah.Entities/Seed/SeedData.cs:21-25 | "Guide" is already trimmed, matches the seeded "guide" up to case, and matches no other seeded tag |
| Tags.RenameCaseVariantOnSeed | bacalah.API/Services/TagService.cs:93-98 | on the seed, renaming "guide" to "Guide" succeeds, because a tag's own name is not a collision |

## Left out

- The HTTP controllers, `AuthService` and `TokenService` are not part of this model. Neither are the status codes the controllers map exceptions to, or the DTO validation attributes (`Required`, `StringLength`).
- The document service is not part of this model, so there is nothing that deletes a document and its tag associations, and nothing that adds associations. The category document column and the tag associations are fields the services read but never write: every write method leaves them unchanged.
- `async`, `SaveChangesAsync` and concurrent requests: each method runs as one atomic step. Races between two requests are not modelled, such as two creates of the same tag name, which the unique index would catch.
- Entity Framework loading: `Include` is assumed to load every related row, so `SubCategories`, `Documents` and `DocumentTags` are exactly the rows whose foreign key names the entity.
- Tree loading: `GetTreeAsync` includes `SubCategories` and `Documents` for the root categories only (`CategoryService.cs:63-67`), while `MapToTreeDto` reads them at every depth (`CategoryService.cs:83-85`). The model assumes the deeper navigations are populated, for example by lazy loading, which the source does not show. Without that, the tree would stop at depth two and the children's `DocumentsCount` would be 0.
- Row order: `GetAllAsync`, `GetTreeAsync` and `GetSubCategoriesAsync` of categories (`CategoryService.cs:19-23`, `63-67`, `189-193`) and tag `GetByNameAsync` (`TagService.cs:52-54`) have no `OrderBy`, so the database may return rows in any order. The model lists them in ascending key order; this is a choice of the model, not a promise of the source.
- `DateTime.UtcNow` is one `now` parameter per operation. The source reads the clock several times, for example once each for `CreatedAt` and `UpdatedAt` in category `Create`. Timestamps are opaque integers.
- The `[MaxLength(50)]` column constraint on `Tag.Name` (`bacalah.Entities/Entities/Tag.cs:11`) is a storage constraint checked when changes are saved. The model drops it: tag names of any length are accepted.
- DocumentTag's `CreatedAt` is not modelled: associations are (document, tag) pairs only.
- Text.ToLower, Text.ToLowerIsCaseFolding: folds only `A` to `Z`, not the full Unicode case mapping of .NET `ToLower` or of the database's `LOWER`.
- Text.LexLe, Text.LexLeAntisymmetric: is ordinal comparison by character code, not the culture- or collation-aware comparison that `OrderBy` on names uses in memory or in the database.
- Sorting.SortBy: is not claimed to be stable. Ties among equal names or equal counts come out in an order the model does not promise, and the database does not promise one either.
- The unique index on tag names (`TagConfiguration.cs:11-12`) names no collation, so whether it compares case depends on the database. The service itself enforces uniqueness up to case. The model keeps the service's case-insensitive invariant and does not model the index separately.
- Tags.Popular, Tags.TagService.GetPopular: `.Take(count)` comes before `ToListAsync()` (`TagService.cs:129-130`), so the database provider runs it as a row limit, and what it does with a negative limit is not in the source. The model gives an empty result for `count < 0`, as LINQ to Objects does.
- The `count = 10` default of `GetPopularAsync` is a C# default argument: callers of `GetPopular` pass the count.
- The `?? throw new Exception("Failed to …")` dead ends after a successful write are not modelled: the row just written is always found.
- `MapToTreeDto` and `IsDescendantAsync` (`CategoryService.cs:213-221`) have no recursion or loop guard of their own. `IsDescendantAsync` never ends on a parent cycle that does not contain `parentId`, and two concurrent re-parentings could create such a cycle. In the model both terminate only because the table is a forest: that is the `WellFounded` part of the `Valid()` invariant, which `Create` and `Update` preserve.

How the service's code reports errors and shapes its results, as the model follows it:

- Category `CreateAsync` rejects a missing parent with `ArgumentException` (`ParentNotFound`).
- Category `UpdateAsync` rejects a missing category, a self-parent, a descendant parent and a missing parent, all with `ArgumentException`. The model keeps the four distinct causes, checked in the same order.
- Category `DeleteAsync` throws `InvalidOperationException` for a missing id as well, because `CanDeleteAsync` is false for it. The `return false` at `CategoryService.cs:167` is unreachable, so `Delete` never returns false.
- Tag create and rename collisions throw a plain `Exception` (`DuplicateName`), and renaming a missing tag throws `ArgumentException` (`TagNotFound`).
- `GetTreeAsync` does not sort the roots, so they come in the order of the query (key order in the model). Only sub-categories are sorted by name.
- `GetSubCategoriesAsync` never sets `ParentName`.
- `TagDto` declares `DocumentCount`, while `TagService` assigns `DocumentsCount`. The model names the field `documentsCount`, the count of the tag's associations.
