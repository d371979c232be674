# O3DE prefab loading and editor helpers, modelled in Dafny

This project models five pieces of the O3DE editor and tools and proves properties of them.

- **Prefab loader and saver** (`PrefabLoader.cpp`).
  - A prefab document is parsed and registered as a template, and each entry of its `Instances` object is resolved into a nested template joined to it by a link.
  - Loading is recursive. A set of in-progress paths rejects cycles, a path already registered returns its template, and a failing nested instance only marks the template as loaded with errors.
  - Saving collapses each nested instance back into its link's stored form, removes the transient `Source` member, and writes the result to disk or to a string.
  - The registry, the document tree, the path helpers and the loader are functional: the registry and the in-progress set are threaded through mutually recursive functions.
- **Visible-entity cache** of the viewport (`EditorVisibleEntityDataCache.cpp`). It keeps records sorted by entity id, refreshes them from the new visible set by sorted set differences, finds a record by binary search, and patches records from change notifications.
- **Gem catalogue filter** of the Project Manager (`GemSortFilterProxyModel.cpp`). It is a conjunction of:
  - a case-insensitive search;
  - a status filter;
  - origin, platform and type bit masks;
  - a feature set.
- **Project copy path logic** (`ProjectUtils.cpp`): the ancestor walk that refuses to copy a project into itself, and the skip-list bookkeeping of the directory walk.
- **Transform-selection state** (`EditorTransformComponentSelection.cpp`):
  - the pivot override frame and its pick flags;
  - pivot toggling;
  - the reference frame chosen by modifiers or locked by the space buttons;
  - the mouse-input predicates;
  - the wheel cycling of the manipulator mode.

The loader's collaborators are fields of an `Env` value:
- the asset system's path answers;
- the JSON codec;
- the reflection round trip used for normalisation;
- the registry's and the disk's refusals.

The file system is a map from absolute path to content. The entity cache asks a `Query` function for an entity's current state.

Files:
- `wrappers.dfy`: `Option`.
- `dom.dfy`: the JSON document and its pointers.
- `prefab_paths.dfy`: path validation and resolution.
- `prefab_registry.dfy`: templates, links, the path map.
- `prefab_loader.dfy`: the loader.
- `prefab_saver.dfy`: the saver.
- `entity_cache.dfy`: sorted-sequence toolkit and the cache.
- `gem_filter.dfy`: the gem filter.
- `project_utils.dfy`: the project-copy path logic.
- `transform_selection.dfy`: the transform-selection state.

The code's own comments say that a load marks the file as in progress before it walks the instances (`PrefabLoader.cpp:171-172`, which inserts the registry key) and un-marks it when it finishes (`PrefabLoader.cpp:204-205`, which erases the caller's spelling of the path). The two differ when the key is not the spelling. Both behaviours are modelled through `UnmarkPolicy`, and the first finding below compares them.

## Model

| member | source | states |
|---|---|---|
| Dom.Put | Code/Framework/AzToolsFramework/AzToolsFramework/Prefab/PrefabLoader.cpp:150-152 | Setting a member makes it the first match for its name, adds a member only when the name was absent, and leaves every other name's lookup and count alone |
| Dom.EraseFirst | Code/Framework/AzToolsFramework/AzToolsFramework/Prefab/PrefabLoader.cpp:541-543 | Removing a name's first member lowers that name's count by one (or leaves it at zero) and never changes what another name finds |
| Dom.SetMember | Code/Framework/AzToolsFramework/AzToolsFramework/Prefab/PrefabLoader.cpp:150-152 | Setting a root member, as the loader does for `/Source`, leaves an object whose member of that name reads back the value set; on an object root every other name reads as before |
| Dom.EraseMember | Code/Framework/AzToolsFramework/AzToolsFramework/Prefab/PrefabLoader.cpp:541-543 | Erasing a root member, as the saver does for `/Source`, leaves every other name reading as before, and leaves none of that name when there was at most one |
| Dom.ReplaceAt | Code/Framework/AzToolsFramework/AzToolsFramework/Prefab/PrefabLoader.cpp:523-538 | Overwriting a resolvable location makes that location read back the new value, and it never adds or removes a root member other than the one on the path |
| Dom.ReplaceAtKeepsIndependent | Code/Framework/AzToolsFramework/AzToolsFramework/Prefab/PrefabLoader.cpp:523-538 | Overwriting one location never changes what a disjoint location holds |
| Dom.EraseMemberKeepsOthers | Code/Framework/AzToolsFramework/AzToolsFramework/Prefab/PrefabLoader.cpp:541-543 | Erasing a root member leaves every location below another root member unchanged |
| Dom.SetSourceKeepsInstances | Code/Framework/AzToolsFramework/AzToolsFramework/Prefab/PrefabLoader.cpp:150-178 | Injecting the `Source` member never changes the instance entries the loader then walks |
| PrefabPaths.FindFirstOf | Code/Framework/AzToolsFramework/AzToolsFramework/Prefab/PrefabLoader.cpp:554 | The search for a forbidden character finds the first one, and finds none exactly when the path has none |
| PrefabPaths.ValidPrefabPathMeaning | Code/Framework/AzToolsFramework/AzToolsFramework/Prefab/PrefabLoader.cpp:548-556 | A prefab path is valid exactly when it is non-empty, holds no forbidden character and ends in neither `/` nor `\` |
| PrefabPaths.Join | Code/Framework/AzToolsFramework/AzToolsFramework/Prefab/PrefabLoader.cpp:602 | Appending to the project root starts with the root and ends with the relative path, with a separator between them only when the root lacks one |
| PrefabPaths.GetFullPath | Code/Framework/AzToolsFramework/AzToolsFramework/Prefab/PrefabLoader.cpp:558-606 | An absolute path is its own full path, and a relative path the asset system cannot place is resolved under the project root |
| PrefabPaths.GenerateRelativePath | Code/Framework/AzToolsFramework/AzToolsFramework/Prefab/PrefabLoader.cpp:608-657 | A non-empty asset-system answer is the key; without one an absolute path is made relative to the project root, and a non-empty relative path keeps a non-empty key |
| PrefabPaths.RelativePathKeptWithoutAnswer | Code/Framework/AzToolsFramework/AzToolsFramework/Prefab/PrefabLoader.cpp:608-657 | Without an asset-system answer, or with an empty one, a relative path is its own registry key |
| PrefabRegistry.InstancePathOf | Code/Framework/AzToolsFramework/AzToolsFramework/Prefab/PrefabLoader.cpp:264-265 | A link for an instance entry anchors at that entry under `Instances` |
| PrefabRegistry.TemplateIdFromPath | Code/Framework/AzToolsFramework/AzToolsFramework/Prefab/PrefabLoader.cpp:129-134 | The lookup by path gives the invalid id exactly when nothing is registered under the path, and otherwise the template registered under it |
| PrefabRegistry.AddTemplate | Code/Framework/AzToolsFramework/AzToolsFramework/Prefab/PrefabLoader.cpp:154-167 | A new template gets a fresh id, is found under its path and is valid and clean; the invalid id comes back exactly when the registry refuses or ids are exhausted, and then the registry is unchanged; the registry invariant holds either way |
| PrefabRegistry.AddLink | Code/Framework/AzToolsFramework/AzToolsFramework/Prefab/PrefabLoader.cpp:263-278 | A new link from the nested template to the target gets a fresh id and the instance's location; the invalid id comes back exactly when the registry refuses or ids are exhausted, and then nothing changes; templates are never touched |
| PrefabRegistry.UpdateTemplate | Code/Framework/AzToolsFramework/AzToolsFramework/Prefab/PrefabLoader.cpp:201-203 | Rewriting a template's record under the same path keeps the registry invariant, the path map and the links |
| PrefabRegistry.SetDirty | Code/Framework/AzToolsFramework/AzToolsFramework/Prefab/PrefabLoader.cpp:362 | Clearing the dirty flag changes that flag of that template and nothing else |
| PrefabRegistry.TemplateLinks | Code/Framework/AzToolsFramework/AzToolsFramework/Prefab/PrefabLoader.cpp:488 | A template's links are exactly the links whose target it is, each once, oldest first |
| PrefabLoader.Sanitize | Code/Framework/AzToolsFramework/AzToolsFramework/Prefab/PrefabLoader.cpp:284-339 | Normalisation succeeds exactly when both instantiating and storing succeed, and then gives the stored document; on failure the document is left as it was |
| PrefabLoader.SanitizeAfterSanitize | Code/Framework/AzToolsFramework/AzToolsFramework/Prefab/PrefabLoader.cpp:284-339 | With a reflection round trip that gives back what it stored, a normalised document normalises as the original does, so normalising twice is normalising once |
| PrefabLoader.NestedSource | Code/Framework/AzToolsFramework/AzToolsFramework/Prefab/PrefabLoader.cpp:230-243 | An instance names a nested prefab exactly when its `Source` member is a non-empty string, and that string is the path |
| PrefabLoader.Malformed | Code/Framework/AzToolsFramework/AzToolsFramework/Prefab/PrefabLoader.cpp:219-241 | An entry is rejected before loading exactly when its key is not a valid prefab path or it has no non-empty string `Source` |
| PrefabLoader.LoadFromFile | Code/Framework/AzToolsFramework/AzToolsFramework/Prefab/PrefabLoader.cpp:60-87 | An invalid path or an unreadable file fails with the state untouched, even for a prefab already registered; a success names the template registered under the path's key; the registry only grows and gains no link into an older template |
| PrefabLoader.LoadFromString | Code/Framework/AzToolsFramework/AzToolsFramework/Prefab/PrefabLoader.cpp:97-134 | An invalid path fails, a key already in progress fails as a cycle, and a key already registered returns its template; each of these leaves the state untouched |
| PrefabLoader.UnparsedOrRefusedFails | Code/Framework/AzToolsFramework/AzToolsFramework/Prefab/PrefabLoader.cpp:136-167 | Content that does not parse, and a template the registry refuses, fail the load with the state untouched |
| PrefabLoader.CreateTemplate | Code/Framework/AzToolsFramework/AzToolsFramework/Prefab/PrefabLoader.cpp:154-209 | A created template has an id new to the registry and is registered under its key; a failure leaves the state untouched |
| PrefabLoader.FinishTemplate | Code/Framework/AzToolsFramework/AzToolsFramework/Prefab/PrefabLoader.cpp:201-209 | Finishing a template returns its id and removes exactly the unmarked key from the in-progress set |
| PrefabLoader.CreateMarksErrors | Code/Framework/AzToolsFramework/AzToolsFramework/Prefab/PrefabLoader.cpp:175-203 | A created template is marked as loaded with errors exactly when some instance entry, run from the state the entries before it left, failed, or normalising its document failed; its stored document is the normalised one |
| PrefabLoader.LoadInstances | Code/Framework/AzToolsFramework/AzToolsFramework/Prefab/PrefabLoader.cpp:175-199 | Resolving the instance list only adds to the registry, and every new link points into the target or into a template created on the way |
| PrefabLoader.LoadNestedInstance | Code/Framework/AzToolsFramework/AzToolsFramework/Prefab/PrefabLoader.cpp:212-282 | Resolving an instance entry only adds to the registry, and every new link points into the target or into a template created on the way |
| PrefabLoader.LinkOutcome | Code/Framework/AzToolsFramework/AzToolsFramework/Prefab/PrefabLoader.cpp:249-281 | Linking fails with the loaded state when the nested template is missing or invalid, the link is refused or link ids are exhausted; otherwise it adds exactly the new link at the entry's location and succeeds exactly when the nested template loaded without errors |
| PrefabLoader.NestedOutcome | Code/Framework/AzToolsFramework/AzToolsFramework/Prefab/PrefabLoader.cpp:212-282 | A malformed entry or a spent budget fails with the state untouched, a failed nested load fails with the state untouched, and otherwise the outcome is linking's: a refusal fails, and a new link succeeds exactly when the nested template is clean |
| PrefabLoader.LinkNested | Code/Framework/AzToolsFramework/AzToolsFramework/Prefab/PrefabLoader.cpp:249-281 | Linking succeeds only through a link into the target from a nested template that loaded cleanly; it adds at most the newest link, for the entry's own location |
| PrefabLoader.MalformedEntryFails | Code/Framework/AzToolsFramework/AzToolsFramework/Prefab/PrefabLoader.cpp:219-241 | An entry with an invalid key or without a usable `Source` fails and changes nothing |
| PrefabLoader.NestedSuccessLinksCleanly | Code/Framework/AzToolsFramework/AzToolsFramework/Prefab/PrefabLoader.cpp:249-281 | An entry that succeeds has a link into the target from a nested template that loaded without errors |
| PrefabLoader.NestedAddsOneLink | Code/Framework/AzToolsFramework/AzToolsFramework/Prefab/PrefabLoader.cpp:263-278 | An entry adds at most one link into the target: the newest link, anchored at the entry itself |
| PrefabLoader.InstancesLinkCleanly | Code/Framework/AzToolsFramework/AzToolsFramework/Prefab/PrefabLoader.cpp:175-199 | An instance list succeeds only when every entry is linked to a nested template that loaded cleanly |
| PrefabLoader.InstancesFailOnMalformed | Code/Framework/AzToolsFramework/AzToolsFramework/Prefab/PrefabLoader.cpp:175-199 | One malformed entry anywhere in the list fails the whole list |
| PrefabLoader.ThreadSplit | Code/Framework/AzToolsFramework/AzToolsFramework/Prefab/PrefabLoader.cpp:184-198 | Running entries one after the other from the state each leaves splits at any point: the whole succeeds exactly when both parts do, ending where the second part ends |
| PrefabLoader.ThreadSnoc | Code/Framework/AzToolsFramework/AzToolsFramework/Prefab/PrefabLoader.cpp:184-198 | Running one more entry at the end runs it from the state the list before it left |
| PrefabLoader.ThreadPrefixOk | Code/Framework/AzToolsFramework/AzToolsFramework/Prefab/PrefabLoader.cpp:184-198 | A run of entries succeeds exactly when each entry succeeds from the state the entries before it left |
| PrefabLoader.InstancesAreThread | Code/Framework/AzToolsFramework/AzToolsFramework/Prefab/PrefabLoader.cpp:175-199 | The instance loop is that run, with an entry failing outright when the target is gone or the registry is broken |
| PrefabLoader.EntryResultIsStep | Code/Framework/AzToolsFramework/AzToolsFramework/Prefab/PrefabLoader.cpp:184-198 | An entry's result inside the loop is the nested load run from the state the entries before it left |
| PrefabLoader.InstancesSplit | Code/Framework/AzToolsFramework/AzToolsFramework/Prefab/PrefabLoader.cpp:184-198 | Every entry is processed whatever happened before: the list splits at any point into two parts run one after the other, and succeeds exactly when both do |
| PrefabLoader.InstancesFailIffEntryFails | Code/Framework/AzToolsFramework/AzToolsFramework/Prefab/PrefabLoader.cpp:184-198 | The instance loop fails exactly when some entry, run from the state the entries before it left, fails |
| PrefabLoader.InstancesContinueOnError | Code/Framework/AzToolsFramework/AzToolsFramework/Prefab/PrefabLoader.cpp:184-198 | An entry that succeeds stays linked cleanly at the end of the loop, however many entries before or after it failed |
| PrefabLoader.CreatedTemplateLinks | Code/Framework/AzToolsFramework/AzToolsFramework/Prefab/PrefabLoader.cpp:175-203 | A newly created template without the error mark has every listed instance cleanly linked, and one malformed instance entry always leaves the mark |
| PrefabLoader.FileRestoresInProgress | Code/Framework/AzToolsFramework/AzToolsFramework/Prefab/PrefabLoader.cpp:60-87 | When the unmarked key is the marked one, a file load hands back the in-progress set as it found it |
| PrefabLoader.StringRestoresInProgress | Code/Framework/AzToolsFramework/AzToolsFramework/Prefab/PrefabLoader.cpp:97-209 | When the unmarked key is the marked one, a content load hands back the in-progress set as it found it |
| PrefabLoader.CreateRestoresInProgress | Code/Framework/AzToolsFramework/AzToolsFramework/Prefab/PrefabLoader.cpp:173-206 | Creating a template marks its key for the duration of its instances and removes it again |
| PrefabLoader.InstancesRestoreInProgress | Code/Framework/AzToolsFramework/AzToolsFramework/Prefab/PrefabLoader.cpp:175-199 | Resolving an instance list hands back the in-progress set as it found it |
| PrefabLoader.NestedRestoresInProgress | Code/Framework/AzToolsFramework/AzToolsFramework/Prefab/PrefabLoader.cpp:212-282 | Resolving one instance entry hands back the in-progress set as it found it |
| PrefabLoader.NestedInProgress | Code/Framework/AzToolsFramework/AzToolsFramework/Prefab/PrefabLoader.cpp:212-282 | The in-progress set after an entry is the set the nested file load leaves, or the caller's set when the entry stops before loading |
| PrefabLoader.LoadedInProgressKept | Code/Framework/AzToolsFramework/AzToolsFramework/Prefab/PrefabLoader.cpp:249-281 | When the nested file load restores the in-progress set, linking its result keeps it restored |
| PrefabLoader.SpellingLeavesKeyInProgress | Code/Framework/AzToolsFramework/AzToolsFramework/Prefab/PrefabLoader.cpp:173-206 | As written, a path whose key differs from its spelling leaves the key in progress, and a later load of the same prefab is rejected as a cycle |
| PrefabLoader.KeyUnmarkedAllowsReuse | Code/Framework/AzToolsFramework/AzToolsFramework/Prefab/PrefabLoader.cpp:173-206 | With the key itself unmarked, the in-progress set is restored and a later load of the same prefab returns the registered template |
| PrefabLoader.CreateWithoutInstances | Code/Framework/AzToolsFramework/AzToolsFramework/Prefab/PrefabLoader.cpp:173-206 | Creating a template for a document without instances leaves the in-progress set with its key added and the policy's key removed |
| PrefabLoader.LoadTemplateFromFile | Code/Framework/AzToolsFramework/AzToolsFramework/Prefab/PrefabLoader.cpp:53-58 | A top-level file load only adds to the registry, fails without changing it, and names the template registered under the path's key |
| PrefabLoader.LoadTemplateFromString | Code/Framework/AzToolsFramework/AzToolsFramework/Prefab/PrefabLoader.cpp:89-95 | A top-level content load only adds to the registry, fails without changing it, and names the template registered under the origin's key |
| PrefabSaver.CollapseLinks | Code/Framework/AzToolsFramework/AzToolsFramework/Prefab/PrefabLoader.cpp:488-539 | A missing or invalid link anywhere in the list stops the collapse, and so does a first link whose location the document lacks |
| PrefabSaver.CollapseSucceedsExactly | Code/Framework/AzToolsFramework/AzToolsFramework/Prefab/PrefabLoader.cpp:488-539 | With links at disjoint locations, the collapse succeeds exactly when every link is valid and its location resolves in the document |
| PrefabSaver.CollapsePlacesLinkDoms | Code/Framework/AzToolsFramework/AzToolsFramework/Prefab/PrefabLoader.cpp:488-539 | With valid links at disjoint locations the document has, the collapse succeeds and each location holds its own link's stored form |
| PrefabSaver.CollapseKeepsOthers | Code/Framework/AzToolsFramework/AzToolsFramework/Prefab/PrefabLoader.cpp:488-539 | The collapse never changes a location disjoint from every link's location |
| PrefabSaver.CollapseKeepsRootMembers | Code/Framework/AzToolsFramework/AzToolsFramework/Prefab/PrefabLoader.cpp:488-539 | The collapse touches only the `Instances` member, and never adds or removes a `Source` member |
| PrefabSaver.CopyTemplateIntoPrefabFileFormat | Code/Framework/AzToolsFramework/AzToolsFramework/Prefab/PrefabLoader.cpp:474-546 | The file form keeps every root member except `Source` and `Instances` as the stripped copy has it, even when stripping failed, and an invalid link of the template fails it |
| PrefabSaver.SavedFormCollapsesLinks | Code/Framework/AzToolsFramework/AzToolsFramework/Prefab/PrefabLoader.cpp:474-546 | With valid links at distinct instances, the file form has no `Source` and each instance replaced by its link's stored form |
| PrefabSaver.StoreTemplateIntoFileFormat | Code/Framework/AzToolsFramework/AzToolsFramework/Prefab/PrefabLoader.cpp:429-472 | A file form exists exactly when the template is registered, valid and collapsible, and it is saved under the template's own key |
| PrefabSaver.WriteJsonFile | Code/Framework/AzToolsFramework/AzToolsFramework/Prefab/PrefabLoader.cpp:349-360 | A write succeeds exactly when serialising and writing both succeed, and then changes that one file only |
| PrefabSaver.SaveTemplate | Code/Framework/AzToolsFramework/AzToolsFramework/Prefab/PrefabLoader.cpp:341-364 | A save succeeds exactly when the template serialises and the disk accepts the write; a failed save changes neither disk nor registry; a successful one writes the serialised string at the key's full path and clears only the dirty flag |
| PrefabSaver.SaveTemplateToFile | Code/Framework/AzToolsFramework/AzToolsFramework/Prefab/PrefabLoader.cpp:366-403 | A save to a location succeeds exactly when the template serialises, the location's key is the template's and the disk accepts the write; a failure writes nothing and leaves the dirty flag; a success saves a valid template's serialised string at that location and clears the flag |
| PrefabSaver.SaveTemplateToString | Code/Framework/AzToolsFramework/AzToolsFramework/Prefab/PrefabLoader.cpp:405-427 | Only a registered, valid template serialises, and the registry, with its dirty flag, is not an output |
| PrefabSaver.SaveWritesTheSavedString | Code/Framework/AzToolsFramework/AzToolsFramework/Prefab/PrefabLoader.cpp:341-427 | What a successful save writes to disk is exactly the string saving to a string produces |
| PrefabSaver.SaveToOwnLocationIsSave | Code/Framework/AzToolsFramework/AzToolsFramework/Prefab/PrefabLoader.cpp:341-403 | Saving to the location a template's key resolves to is the ordinary save |
| PrefabSaver.SavedFileReadsBack | Code/Framework/AzToolsFramework/AzToolsFramework/Prefab/PrefabLoader.cpp:341-364 | With a codec that reads back what it writes, the saved file parses to the template's file form |
| SortedKeys.Insert | Code/Framework/AzToolsFramework/AzToolsFramework/ViewportSelection/EditorVisibleEntityDataCache.cpp:212 | Inserting into a sorted sequence keeps it sorted and adds exactly the one element |
| SortedKeys.InsertStrict | Code/Framework/AzToolsFramework/AzToolsFramework/ViewportSelection/EditorVisibleEntityDataCache.cpp:212 | Inserting a new key into a strictly sorted sequence keeps it strictly sorted |
| SortedKeys.SortBy | Code/Framework/AzToolsFramework/AzToolsFramework/ViewportSelection/EditorVisibleEntityDataCache.cpp:177 | Sorting gives a sorted permutation of the input |
| SortedKeys.SortSingleton | Code/Framework/AzToolsFramework/AzToolsFramework/ViewportSelection/EditorVisibleEntityDataCache.cpp:177 | Sorting one element gives it back |
| SortedKeys.SortIncreasingPair | Code/Framework/AzToolsFramework/AzToolsFramework/ViewportSelection/EditorVisibleEntityDataCache.cpp:177 | Sorting two elements already in increasing key order gives them back |
| SortedKeys.SortByKeys | Code/Framework/AzToolsFramework/AzToolsFramework/ViewportSelection/EditorVisibleEntityDataCache.cpp:212 | Sorting keeps the set of keys, and input without a repeated key comes out strictly increasing |
| SortedKeys.SortByDistinctIsStrict | Code/Framework/AzToolsFramework/AzToolsFramework/ViewportSelection/EditorVisibleEntityDataCache.cpp:212 | Sorting input without a repeated key gives strictly increasing keys |
| SortedKeys.FilterOut | Code/Framework/AzToolsFramework/AzToolsFramework/ViewportSelection/EditorVisibleEntityDataCache.cpp:191-202 | Removal keeps exactly the elements whose key is not excluded |
| SortedKeys.FilterOutKeys | Code/Framework/AzToolsFramework/AzToolsFramework/ViewportSelection/EditorVisibleEntityDataCache.cpp:191-202 | Removal takes exactly the excluded keys out of the key set |
| SortedKeys.FilterOutStrict | Code/Framework/AzToolsFramework/AzToolsFramework/ViewportSelection/EditorVisibleEntityDataCache.cpp:199-202 | Removal keeps a strictly sorted sequence strictly sorted |
| SortedKeys.Difference | Code/Framework/AzToolsFramework/AzToolsFramework/ViewportSelection/EditorVisibleEntityDataCache.cpp:181-189 | The merge-style difference keeps a sub-multiset of the first range, and all of it when the second range is empty |
| SortedKeys.DifferenceIsFilter | Code/Framework/AzToolsFramework/AzToolsFramework/ViewportSelection/EditorVisibleEntityDataCache.cpp:179-189 | On strictly sorted ranges the merge-style difference keeps exactly the elements of the first range whose key the second lacks |
| SortedKeys.DistinctConcat | Code/Framework/AzToolsFramework/AzToolsFramework/ViewportSelection/EditorVisibleEntityDataCache.cpp:204-209 | Appending records for ids the cache lacks keeps one record per id |
| SortedKeys.DistinctKeysOccurOnce | Code/Framework/AzToolsFramework/AzToolsFramework/ViewportSelection/EditorVisibleEntityDataCache.cpp:145-156 | With no id twice, no record occurs twice |
| SortedKeys.SameElementsSameKeys | Code/Framework/AzToolsFramework/AzToolsFramework/ViewportSelection/EditorVisibleEntityDataCache.cpp:211-212 | Re-sorting, or any other rearrangement of the same records, keeps the set of ids |
| EntityCache.Record | Code/Framework/AzToolsFramework/AzToolsFramework/ViewportSelection/EditorVisibleEntityDataCache.cpp:101-117 | A fetched record is for the entity asked about and carries the default accent |
| EntityCache.Fetch | Code/Framework/AzToolsFramework/AzToolsFramework/ViewportSelection/EditorVisibleEntityDataCache.cpp:204-209 | One fresh record per id, in the order of the ids |
| EntityCache.FetchKeys | Code/Framework/AzToolsFramework/AzToolsFramework/ViewportSelection/EditorVisibleEntityDataCache.cpp:204-209 | Fetched records carry exactly the fetched ids, once each when the ids are distinct |
| EntityCache.CalculateVisibleEntityDatas | Code/Framework/AzToolsFramework/AzToolsFramework/ViewportSelection/EditorVisibleEntityDataCache.cpp:158-214 | An unchanged visible list leaves the cache alone; a changed one is remembered, its ids are kept as a sorted permutation, and the records end up sorted |
| EntityCache.CalculateTracksVisibleSet | Code/Framework/AzToolsFramework/AzToolsFramework/ViewportSelection/EditorVisibleEntityDataCache.cpp:168-213 | After a change, the records are strictly sorted, one per visible id; records of entities still visible are carried over untouched, and every other record is freshly fetched for an entity that had none |
| EntityCache.Refreshed | Code/Framework/AzToolsFramework/AzToolsFramework/ViewportSelection/EditorVisibleEntityDataCache.cpp:179-212 | The records after a change of the visible set are sorted by id |
| EntityCache.RefreshedKeys | Code/Framework/AzToolsFramework/AzToolsFramework/ViewportSelection/EditorVisibleEntityDataCache.cpp:179-212 | A refresh leaves exactly the visible ids, strictly sorted |
| EntityCache.RefreshedProvenance | Code/Framework/AzToolsFramework/AzToolsFramework/ViewportSelection/EditorVisibleEntityDataCache.cpp:179-212 | Every refreshed record is carried over or freshly fetched for an entity that had no record |
| EntityCache.RefreshedKeepsVisible | Code/Framework/AzToolsFramework/AzToolsFramework/ViewportSelection/EditorVisibleEntityDataCache.cpp:185-202 | The record of every entity that stays visible survives a refresh unchanged |
| EntityCache.RefreshParts | Code/Framework/AzToolsFramework/AzToolsFramework/ViewportSelection/EditorVisibleEntityDataCache.cpp:179-202 | The added ids are the visible ids without a record, and the kept records are those of still-visible entities, each strictly sorted |
| EntityCache.CarriedOrFetched | Code/Framework/AzToolsFramework/AzToolsFramework/ViewportSelection/EditorVisibleEntityDataCache.cpp:204-212 | Re-sorting carried-over and freshly fetched records introduces no record of any other kind |
| EntityCache.GetVisibleEntityIndexFromId | Code/Framework/AzToolsFramework/AzToolsFramework/ViewportSelection/EditorVisibleEntityDataCache.cpp:266-277 | On sorted records the binary search returns the first position holding the id, and nothing exactly when no record has it |
| EntityCache.IndexOf | Code/Framework/AzToolsFramework/AzToolsFramework/ViewportSelection/EditorVisibleEntityDataCache.cpp:266-277 | The reference lookup gives the first position with the id, or nothing exactly when the id is absent |
| EntityCache.IndexOfUnique | Code/Framework/AzToolsFramework/AzToolsFramework/ViewportSelection/EditorVisibleEntityDataCache.cpp:266-277 | Any first position of the id, or a proof of absence, is the lookup's answer |
| EntityCache.Handle | Code/Framework/AzToolsFramework/AzToolsFramework/ViewportSelection/EditorVisibleEntityDataCache.cpp:289-359 | A notification changes at most the record of its entity, which it patches with its value, is ignored for an entity without a record, and keeps the length and every id |
| EntityCache.Apply | Code/Framework/AzToolsFramework/AzToolsFramework/ViewportSelection/EditorVisibleEntityDataCache.cpp:289-375 | Each notification sets exactly its own field of a record: selection to true or false, the transform, lock and visibility to the values given, the icon to the editor's answer, and the accent to the one given; the id never changes |
| EntityCache.HandleTouchesOneField | Code/Framework/AzToolsFramework/AzToolsFramework/ViewportSelection/EditorVisibleEntityDataCache.cpp:289-359 | Each notification sets its own field of its entity's record to the value it carries, and changes nothing else |
| EntityCache.HandleKeepsOrder | Code/Framework/AzToolsFramework/AzToolsFramework/ViewportSelection/EditorVisibleEntityDataCache.cpp:289-359 | Notifications keep the records sorted, strictly when they were, and keep the set of ids |
| EntityCache.HandleIdempotent | Code/Framework/AzToolsFramework/AzToolsFramework/ViewportSelection/EditorVisibleEntityDataCache.cpp:289-359 | Delivering a notification twice has the effect of delivering it once |
| EntityCache.SelectableFollowsNotifications | Code/Framework/AzToolsFramework/AzToolsFramework/ViewportSelection/EditorVisibleEntityDataCache.cpp:261-264 | After a visibility or lock change an entity is selectable exactly when it is now visible and not locked; other notifications leave selectability alone |
| EntityCache.AfterUndoRedo | Code/Framework/AzToolsFramework/AzToolsFramework/ViewportSelection/EditorVisibleEntityDataCache.cpp:279-287 | A refresh after undo or redo keeps every id in place and resets the accents |
| EntityCache.AfterUndoRedoForgetsNotifications | Code/Framework/AzToolsFramework/AzToolsFramework/ViewportSelection/EditorVisibleEntityDataCache.cpp:279-287 | A refresh discards whatever a notification had changed |
| EntityCache.AfterUndoRedoDependsOnIds | Code/Framework/AzToolsFramework/AzToolsFramework/ViewportSelection/EditorVisibleEntityDataCache.cpp:279-287 | A refresh depends only on the ids of the records |
| EntityCache.AfterUndoRedoIsCurrent | Code/Framework/AzToolsFramework/AzToolsFramework/ViewportSelection/EditorVisibleEntityDataCache.cpp:279-287 | After a refresh every record matches the editor's answer, so a second refresh changes nothing |
| EntityCache.AddEntityIds | Code/Framework/AzToolsFramework/AzToolsFramework/ViewportSelection/EditorVisibleEntityDataCache.cpp:145-156 | Adding ids appends them to the visible list and adds a fresh record for every id of the whole accumulated list, keeping the records sorted |
| EntityCache.TwoAdditionsRecords | Code/Framework/AzToolsFramework/AzToolsFramework/ViewportSelection/EditorVisibleEntityDataCache.cpp:145-156 | Two additions to an empty cache leave the first entity's record twice and the second's once |
| EntityCache.AddEntityIdsTwiceDuplicates | Code/Framework/AzToolsFramework/AzToolsFramework/ViewportSelection/EditorVisibleEntityDataCache.cpp:145-156 | As written, two additions leave three records with a repeated id |
| EntityCache.DuplicatesLoseRecordOnRefresh | Code/Framework/AzToolsFramework/AzToolsFramework/ViewportSelection/EditorVisibleEntityDataCache.cpp:145-212 | As written, after two additions a refresh with the same visible list drops every record of the first entity, so it is visible without a record |
| EntityCache.TwoAdditionsInOrder | Code/Framework/AzToolsFramework/AzToolsFramework/ViewportSelection/EditorVisibleEntityDataCache.cpp:145-156 | Two additions in increasing id order leave the first record twice, then the second, with no remembered visible list |
| EntityCache.RefreshDropsDuplicated | Code/Framework/AzToolsFramework/AzToolsFramework/ViewportSelection/EditorVisibleEntityDataCache.cpp:179-212 | Refreshing three records, the first repeated, against the two ids leaves only the second entity's record |
| EntityCache.NothingAdded | Code/Framework/AzToolsFramework/AzToolsFramework/ViewportSelection/EditorVisibleEntityDataCache.cpp:179-189 | Both visible ids already have a record, so the refresh fetches nothing |
| EntityCache.OneRemoved | Code/Framework/AzToolsFramework/AzToolsFramework/ViewportSelection/EditorVisibleEntityDataCache.cpp:179-189 | The cancellation of one duplicate leaves the repeated id as the one removal |
| EntityCache.KeptAfterRemoval | Code/Framework/AzToolsFramework/AzToolsFramework/ViewportSelection/EditorVisibleEntityDataCache.cpp:191-202 | Removing the repeated id drops both of its records |
| EntityCache.SortThreeRecords | Code/Framework/AzToolsFramework/AzToolsFramework/ViewportSelection/EditorVisibleEntityDataCache.cpp:212 | Records already in id order come back from sorting unchanged |
| EntityCache.SortTwoIds | Code/Framework/AzToolsFramework/AzToolsFramework/ViewportSelection/EditorVisibleEntityDataCache.cpp:177 | Two ids in increasing order come back from sorting unchanged |
| EntityCache.AddEntityIdsFetchingNew | Code/Framework/AzToolsFramework/AzToolsFramework/ViewportSelection/EditorVisibleEntityDataCache.cpp:145-156 | Adding ids with a record fetched for each added id only, keeping the records sorted |
| EntityCache.AddingNewIdsKeepsOneRecordEach | Code/Framework/AzToolsFramework/AzToolsFramework/ViewportSelection/EditorVisibleEntityDataCache.cpp:145-156 | Fetching only the new, distinct ids keeps one record per entity, strictly sorted |
| GemFilter.StatusOf | Code/Tools/ProjectManager/Source/GemCatalog/GemSortFilterProxyModel.cpp:39 | A gem's status is `Selected` exactly when it is added, and is never `NoFilter` |
| GemFilter.Lower | Code/Tools/ProjectManager/Source/GemCatalog/GemSortFilterProxyModel.cpp:31 | Lower-casing keeps the length and maps each character on its own |
| GemFilter.EmptySearchMatchesAll | Code/Tools/ProjectManager/Source/GemCatalog/GemSortFilterProxyModel.cpp:31-34 | The empty search string matches every name |
| GemFilter.FindIgnoringCase | Code/Tools/ProjectManager/Source/GemCatalog/GemSortFilterProxyModel.cpp:31 | The scan reports a match exactly when the lower-cased search occurs in the lower-cased name |
| GemFilter.AnyFlagEquals | Code/Tools/ProjectManager/Source/GemCatalog/GemSortFilterProxyModel.cpp:47-66 | The origin loop succeeds exactly when the gem's origin equals one of the first flags the filter selects |
| GemFilter.AnyFlagShared | Code/Tools/ProjectManager/Source/GemCatalog/GemSortFilterProxyModel.cpp:69-110 | The platform and type loops succeed exactly when the gem shares one of the first flags the filter selects |
| GemFilter.AnyFeatureSelected | Code/Tools/ProjectManager/Source/GemCatalog/GemSortFilterProxyModel.cpp:113-129 | The feature loop succeeds exactly when one of the gem's features is selected |
| GemFilter.FilterAcceptsRow | Code/Tools/ProjectManager/Source/GemCatalog/GemSortFilterProxyModel.cpp:22-132 | A row is shown exactly when it exists and passes every filter |
| GemFilter.GemPassesFilters | Code/Tools/ProjectManager/Source/GemCatalog/GemSortFilterProxyModel.cpp:31-131 | Checking the filters in order and stopping at the first rejection accepts exactly the gems that pass all of them |
| GemFilter.LooserFiltersAcceptMore | Code/Tools/ProjectManager/Source/GemCatalog/GemSortFilterProxyModel.cpp:22-132 | Switching filters off never hides a row that was shown |
| GemFilter.ResetFilters | Code/Tools/ProjectManager/Source/GemCatalog/GemSortFilterProxyModel.cpp:153-162 | A reset only switches filters off, and keeps the status filter |
| GemFilter.ResetLeavesOnlyStatus | Code/Tools/ProjectManager/Source/GemCatalog/GemSortFilterProxyModel.cpp:153-162 | After a reset, a row is shown exactly when it passes the status filter |
| GemFilter.ResetShowsMore | Code/Tools/ProjectManager/Source/GemCatalog/GemSortFilterProxyModel.cpp:153-162 | A reset never hides a shown row, and resetting twice is resetting once |
| GemFilter.OutOfRangePlatformFilterHidesAll | Code/Tools/ProjectManager/Source/GemCatalog/GemSortFilterProxyModel.cpp:69-88 | A non-zero platform filter with no bit among the flags the loop visits hides every gem |
| GemFilter.GetGemStatusString | Code/Tools/ProjectManager/Source/GemCatalog/GemSortFilterProxyModel.cpp:134-145 | Only `NoFilter` gets the unknown-status text |
| GemFilter.GemStatusStringInjective | Code/Tools/ProjectManager/Source/GemCatalog/GemSortFilterProxyModel.cpp:134-145 | Different statuses are shown under different names, so a name identifies its status |
| ProjectUtils.CdUp | Code/Tools/ProjectManager/Source/ProjectUtils.cpp:58 | Moving up drops the last directory name, and the root stays where it is |
| ProjectUtils.IsDirectoryDescendant | Code/Tools/ProjectManager/Source/ProjectUtils.cpp:46-62 | The upward walk reports the directory itself or any non-root ancestor, and nothing else |
| ProjectUtils.RootIsNoAncestor | Code/Tools/ProjectManager/Source/ProjectUtils.cpp:51-59 | The walk stops before the root, so the root is never reported as the ancestor of another directory |
| ProjectUtils.DescendsTransitive | Code/Tools/ProjectManager/Source/ProjectUtils.cpp:46-62 | Containment as the walk decides it is transitive |
| ProjectUtils.CopyProjectMayProceed | Code/Tools/ProjectManager/Source/ProjectUtils.cpp:326-330 | A copy goes ahead exactly when neither path lies inside the other, and never onto itself |
| ProjectUtils.SeparatorIndex | Code/Tools/ProjectManager/Source/ProjectUtils.cpp:70 | The first section ends at the first separator, or at the end of a path without one |
| ProjectUtils.SingleSection | Code/Tools/ProjectManager/Source/ProjectUtils.cpp:70-74 | A path is its own first section exactly when it holds no separator |
| ProjectUtils.SectionsRoundTrip | Code/Tools/ProjectManager/Source/ProjectUtils.cpp:70-83 | The first section, the separator and the remainder put back together give the path, and the remainder is shorter |
| ProjectUtils.FirstEnding | Code/Tools/ProjectManager/Source/ProjectUtils.cpp:67-79 | The scan stops at the first entry that names the current directory itself, or runs to the end |
| ProjectUtils.FirstEndingIsFirst | Code/Tools/ProjectManager/Source/ProjectUtils.cpp:67-79 | An entry that names the current directory, with none before it, is where the scan stops |
| ProjectUtils.RemoveAll | Code/Tools/ProjectManager/Source/ProjectUtils.cpp:76 | Removal drops every occurrence of the entry and keeps every other entry |
| ProjectUtils.SkipFilePaths | Code/Tools/ProjectManager/Source/ProjectUtils.cpp:64-89 | Skips exactly when some entry names the current directory itself; then every copy of it leaves the skip list, and otherwise the skip list is unchanged; the remainders of entries passing through it before the stop go one level down |
| ProjectUtils.DeeperComesFromEntries | Code/Tools/ProjectManager/Source/ProjectUtils.cpp:80-84 | Every deeper entry is the remainder of an entry passing through the current directory |
| ProjectUtils.PassingEntryShrinks | Code/Tools/ProjectManager/Source/ProjectUtils.cpp:80-84 | An entry passing through the current directory is that name, a separator and a strictly shorter remainder |
| TransformSelection.TransformOverrideIsEither | Code/Framework/AzToolsFramework/AzToolsFramework/ViewportSelection/EditorTransformComponentSelection.cpp:161-174 | A transform override exists exactly when a translation or an orientation override does |
| TransformSelection.PickFlagsMeaning | Code/Framework/AzToolsFramework/AzToolsFramework/ViewportSelection/EditorTransformComponentSelection.cpp:181-189 | Flags holding only the translation and orientation bits are exactly the bits the two pick queries report |
| TransformSelection.Reset | Code/Framework/AzToolsFramework/AzToolsFramework/ViewportSelection/EditorTransformComponentSelection.cpp:191-197 | A reset frame has no override, no picked entity and no pick flag |
| TransformSelection.ResetPickedTranslation | Code/Framework/AzToolsFramework/AzToolsFramework/ViewportSelection/EditorTransformComponentSelection.cpp:199-204 | Dropping the translation clears its override, its flag and the picked entity, and leaves the orientation part alone |
| TransformSelection.ResetPickedOrientation | Code/Framework/AzToolsFramework/AzToolsFramework/ViewportSelection/EditorTransformComponentSelection.cpp:206-211 | Dropping the orientation clears its override, its flag and the picked entity, and leaves the translation part alone |
| TransformSelection.ResetBothPartsIsReset | Code/Framework/AzToolsFramework/AzToolsFramework/ViewportSelection/EditorTransformComponentSelection.cpp:191-211 | Dropping both parts, in either order, is a full reset |
| TransformSelection.ResetIsFinal | Code/Framework/AzToolsFramework/AzToolsFramework/ViewportSelection/EditorTransformComponentSelection.cpp:191-211 | A reset frame is unchanged by any further reset |
| TransformSelection.ModeIndex | Code/Framework/AzToolsFramework/AzToolsFramework/ViewportSelection/EditorTransformComponentSelection.cpp:1815 | Every mode's index is below three |
| TransformSelection.ModeFromIndex | Code/Framework/AzToolsFramework/AzToolsFramework/ViewportSelection/EditorTransformComponentSelection.cpp:1817 | Converting an index to a mode is the inverse of taking a mode's index |
| TransformSelection.RecordPick | Code/Framework/AzToolsFramework/AzToolsFramework/ViewportSelection/EditorTransformComponentSelection.cpp:1975-1989 | A pick in rotation mode flags both parts, a pick in translation mode only the translation, and a pick in scale mode changes nothing; the overrides stay |
| TransformSelection.RecordPickIdempotent | Code/Framework/AzToolsFramework/AzToolsFramework/ViewportSelection/EditorTransformComponentSelection.cpp:1975-1989 | Picking the same entity twice in the same mode is picking it once |
| TransformSelection.ResetUndoesTranslationPick | Code/Framework/AzToolsFramework/AzToolsFramework/ViewportSelection/EditorTransformComponentSelection.cpp:199-204 | Dropping the translation after a translation pick gives what dropping it before the pick gives |
| TransformSelection.TogglePivotMode | Code/Framework/AzToolsFramework/AzToolsFramework/ViewportSelection/EditorTransformComponentSelection.cpp:289-301 | Toggling always changes the pivot |
| TransformSelection.TogglePivotModeTwice | Code/Framework/AzToolsFramework/AzToolsFramework/ViewportSelection/EditorTransformComponentSelection.cpp:289-301 | Toggling twice restores the pivot |
| TransformSelection.ReferenceFrameFromModifiers | Code/Framework/AzToolsFramework/AzToolsFramework/ViewportSelection/EditorTransformComponentSelection.cpp:802-816 | Shift without Alt is the world frame, Alt without Shift the local frame, and both or neither the parent frame |
| TransformSelection.ReferenceFrameModifierSymmetry | Code/Framework/AzToolsFramework/AzToolsFramework/ViewportSelection/EditorTransformComponentSelection.cpp:802-816 | Ctrl never matters, and swapping Shift and Alt swaps the world and local frames |
| TransformSelection.EffectiveReferenceFrame | Code/Framework/AzToolsFramework/AzToolsFramework/ViewportSelection/EditorTransformComponentSelection.cpp:1428 | A locked frame wins over the modifiers, and without a lock the modifiers decide |
| TransformSelection.ButtonFrame | Code/Framework/AzToolsFramework/AzToolsFramework/ViewportSelection/EditorTransformComponentSelection.cpp:2587-2628 | A click names the local frame when it is on the local button, else the parent frame on the parent button, else the world frame on the world button, and no frame for any other button |
| TransformSelection.OnSpaceButtonClicked | Code/Framework/AzToolsFramework/AzToolsFramework/ViewportSelection/EditorTransformComponentSelection.cpp:2587-2628 | Clicking the locked frame's button unlocks it, clicking another frame's button locks that frame, any other button changes nothing, and the indicator shows whether a frame is locked |
| TransformSelection.SpaceButtonTwice | Code/Framework/AzToolsFramework/AzToolsFramework/ViewportSelection/EditorTransformComponentSelection.cpp:2587-2628 | Two clicks on one space button keep that frame locked if it was, and otherwise leave nothing locked |
| TransformSelection.LockedFrameOverridesModifiers | Code/Framework/AzToolsFramework/AzToolsFramework/ViewportSelection/EditorTransformComponentSelection.cpp:3334 | Once a click locks a frame, manipulators use that frame whatever keys are held |
| TransformSelection.DittoGesturesPartitionSnap | Code/Framework/AzToolsFramework/AzToolsFramework/ViewportSelection/EditorTransformComponentSelection.cpp:231-253 | Group and individual ditto never fire together, each is a terrain snap, and the remaining terrain snaps are Alt without Ctrl |
| TransformSelection.InputGesturesDisjoint | Code/Framework/AzToolsFramework/AzToolsFramework/ViewportSelection/EditorTransformComponentSelection.cpp:219-274 | Wheel cycling and double-click deselection never coincide, manipulator ditto excludes group ditto and cycling, and an additive select is a select |
| TransformSelection.NextModeIndex | Code/Framework/AzToolsFramework/AzToolsFramework/ViewportSelection/EditorTransformComponentSelection.cpp:1811-1817 | Wheel cycling, computed in unsigned 64-bit words, always gives an index below the bound of two |
| TransformSelection.CycleMode | Code/Framework/AzToolsFramework/AzToolsFramework/ViewportSelection/EditorTransformComponentSelection.cpp:1811-1817 | Wheel cycling never selects scale mode |
| TransformSelection.WheelDirectionIrrelevant | Code/Framework/AzToolsFramework/AzToolsFramework/ViewportSelection/EditorTransformComponentSelection.cpp:1811-1817 | Because the -1 step wraps around, both wheel directions move to the next index modulo two |
| TransformSelection.CycleModeSwaps | Code/Framework/AzToolsFramework/AzToolsFramework/ViewportSelection/EditorTransformComponentSelection.cpp:1811-1817 | Cycling alternates translation and rotation, sends scale to rotation, and two steps come back except from scale |

## Left out

- Nesting depth: the recursive load carries a `fuel` budget, and an instance entry fails once it is spent. The code recurses without bound, relying on the in-progress set to stop cycles. Nothing is stated about loads deeper than the budget.
- File reads and writes, JSON parsing and serialisation, and the reflection round trip are parameters. The asset system's path answers, the registry's refusals and id allocation are parameters too. Each is a field of `Env`, or the `FileSystem` map.
- The registry implementation is not part of this model. Templates, links and the path map are a record with the invariant the loader relies on, and a template's links are derived from the link map in increasing id order. The registry's own link list order is not modelled.
- Error logging (`AZ_Error`, `AZ_Warning`) and the asset processor readiness query are left out. They only produce diagnostics.
- Paths follow POSIX spelling: `/` separates sections, and a path is absolute when it starts with `/`. `MakePreferred` separator conversion is not modelled.
- The assertion that `SaveTemplateToFile` receives an absolute path is a precondition.
- The entity cache's world transform is an opaque value, and the editor's answers about an entity are a `Query` function. The buses, and the connect and disconnect calls, are left out.
- `AZStd::sort` is not stable, but it is modelled as a stable insertion sort. The properties proved hold for any sorted permutation with distinct ids; with repeated ids the relative order of records may differ from the model's.
- SortedKeys.DistinctConcat, CalculateTracksVisibleSet and RefreshedKeys assume the visible list names no entity twice. With repeated ids, the standard library's `set_difference` cancels equal keys one for one, and the model's difference function does the same, but nothing is proved about that case.
- The removal predicate's `equal_range` search of the sorted removal list is modelled as membership in the list's key set.
- The accent kinds of the entity cache are plain numbers: their enumeration is not part of this model, beyond the default of none.
- `GemInfo.h` is not part of this model. The gem filter uses `NumGemOrigins = 2`, `NumPlatforms = 5` and `NumTypes = 3`, flags `1 << i` in 32-bit masks, and status values in which a gem that is not added converts to `Unselected` and an added one to `Selected`.
- Qt's case-insensitive comparison is modelled as ASCII lower-casing of both strings; other scripts' case folding is not modelled.
- The row index and parent of the Qt model become a sequence of gems and an integer row.
- The `Mode`, `PickType`, `ClickOutcome` and `MouseEvent` enumerations come from headers that are not part of this model. Their members are modelled in the order the code uses them, with translation, rotation and scale at indices 0, 1 and 2.
- Vectors, quaternions and the wheel delta are integers. Only their equality or sign is ever used here.
- TogglePivotMode has no branch for pivot values other than object and centre, because the enumeration has only those two.
- The space-cluster lambda's UI calls are reduced to the lock state and the indicator flag. The lambda is at lines 2587-2628.
- `QDir` is reduced to normalised absolute paths as lists of directory names, with the root as the empty list.
- `toNativeSeparators` is the identity under the POSIX separator.
- The rest of `CopyProject`, and `RecursiveGetAllFiles`, `CopyDirectory`, `MoveProject` and `ReplaceFile`, are left out. They do file-system traversal, copying and Qt dialogs.
- The floating-point manipulator callbacks, snapping, drawing and the viewport UI beyond the space lock are left out.
- PrefabLoader.LoadInstances: its own contract states only registry growth and where new links point; continue-on-error and what a failure means are stated by InstancesSplit, InstancesFailIffEntryFails and InstancesContinueOnError, which unfold it through InstancesAreThread.
- PrefabLoader.LoadNestedInstance: its own contract states only registry growth and where new links point; its outcome is stated by NestedOutcome, because carrying it in the contract makes every proof about the instance loop unfold it.
- PrefabLoader.LinkNested: its own contract states only the success condition and the link it may add; its full outcome is stated by LinkOutcome, for the same reason.
- ProjectUtils.Deeper: its contract only bounds the length of the deeper skip list; what the list holds is stated by DeeperComesFromEntries and SkipFilePaths.
- The remaining context files of the repository are left out. They are rendering, AWS client configuration, declarations and a Python editor test script.

## Findings

| source | as written | input that shows it | evidently intended | confidence | as-written member | corrected member |
|---|---|---|---|---|---|---|
| Code/Framework/AzToolsFramework/AzToolsFramework/Prefab/PrefabLoader.cpp:173-206 | The load marks the registry key as in progress, but erases the caller's spelling of the path when it finishes | Loading `/project/a.prefab`, whose key is `a.prefab`, with a document without instances leaves `a.prefab` in the set; loading `a.prefab` again in the same pass is then rejected as a cycle | Erase the same key that was inserted, so the set is restored and a shared prefab reached twice returns its template | medium, not executed | PrefabLoader.SpellingLeavesKeyInProgress | PrefabLoader.KeyUnmarkedAllowsReuse |
| Code/Framework/AzToolsFramework/AzToolsFramework/ViewportSelection/EditorVisibleEntityDataCache.cpp:145-156 | `AddEntityIds` fetches a record for every id of the whole accumulated visible list, not only the ids just added | `AddEntityIds([a])` then `AddEntityIds([b])` on an empty cache leaves three records, two of them for `a`; refreshing with the same visible list `[a, b]` then drops both records of `a` | Fetch records for the added ids only, as the reservation of `size + entityIds.size()` suggests, keeping one record per entity | medium, not executed | EntityCache.AddEntityIdsTwiceDuplicates, EntityCache.DuplicatesLoseRecordOnRefresh | EntityCache.AddEntityIdsFetchingNew, EntityCache.AddingNewIdsKeepsOneRecordEach |
