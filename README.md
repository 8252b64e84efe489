# GammaRay meta-object tree model and GUI string converters, in Dafny

This project models two parts of GammaRay, the Qt application inspector.

The first is `MetaObjectTreeModel`, the model behind the meta-object browser:
- It keeps a tree of every type descriptor (`QMetaObject`) seen in the inspected application. The tree hangs under each descriptor's superclass.
- It inserts a descriptor lazily, after its missing ancestors.
- It counts the objects created of each type (`selfCount`) and of each type with its subtypes (`inclusiveCount`). The counts are cumulative: the decrement path (`objectRemoved`) exists and is modelled, but the source never connects it to object destruction.
- It maps descriptors to model addresses (row, column, parent) and back.
- It batches "counts changed" notifications behind a single-shot timer.

The second is the set of string converters that the GUI support plugin registers for `QSurfaceFormat`, `QSurface::SurfaceClass`, `QSurface::SurfaceType`, `QOpenGLShader::ShaderType` and `QPainterPath`.

Modules:
- `Wrappers` holds `Option`.
- `MetaObjects` holds descriptors as ids, with an acyclic superclass link and its chain (`Line`).
- `TreeAddressing` holds a snapshot of the two tree maps, the tree invariant and addressing (`index`, `rowCount`, `parent`, `indexForMetaObject`, `match`).
- `TreeInsertion` holds `addMetaObject` on a snapshot, and its repetition over a sequence of types (the loop of `scanMetaTypes`).
- `TreeCounts` holds the counters, `inclusive = self + sum of children's inclusive`, and `data` for the count columns.
- `TreeModel` holds the class `MetaObjectTreeModel`, whose methods update the maps, the counters, the pending set and the timer in place. The signals it emits are recorded in a ghost event log.
- `Text` holds `QString::number(int)` and `QStringList::join`, with the facts that make their output readable back.
- `GuiSupport` holds the five converters.

Inputs the model takes as parameters:
- The descriptor universe (superclass links, class names) is fixed and given.
- Whether an object has a dynamic meta object is a flag passed to `ObjectAdded`.
- The registered meta types are the sequence passed to `SeedMetaTypes`.
- The timer firing is the method `Timeout`.

Assumptions and decisions:
- All `QT_VERSION` branches of the converters are taken to be compiled in (Qt 5.9 or later).
- Qt enumerator values come from Qt's public headers.
- The column order Object, Self, Incl. (0, 1, 2, with `_Last` = 3) follows `headerData`.

## Model

| member | source | states |
|---|---|---|
| MetaObjects.NearestKnownIsNearest | core/metaobjecttreemodel.cpp:225-236 | the collapse of a dynamic meta object yields null exactly when no descriptor on its chain is known; otherwise it yields a known descriptor on the chain that lies below every other known one on it |
| MetaObjects.Universe.NearestKnown | core/metaobjecttreemodel.cpp:225-236 | the walk up the chain to the first known descriptor; its contract is NearestKnownIsNearest |
| MetaObjects.Universe.ReachesQObject | core/metaobjecttreemodel.cpp:130-139 | QObject's descriptor is on the superclass chain; InheritsQObject's loop is proved equal to it |
| MetaObjects.InheritsQObject | core/metaobjecttreemodel.cpp:130-139 | the loop returns true exactly when QObject's descriptor is on the superclass chain |
| TreeAddressing.MetaObjectForIndex | core/metaobjecttreemodel.cpp:370-379 | null exactly for an invalid index, otherwise the index's internal pointer |
| TreeAddressing.IndexAt | core/metaobjecttreemodel.cpp:194-204 | valid exactly when 0 <= row < rowCount(parent) and 0 <= column < columnCount(); then it carries that row, that column and the child at that row |
| TreeAddressing.Tree.IsKnown | core/metaobjecttreemodel.cpp:344-347 | a descriptor is known exactly when it has a parent entry; KnownLine and KnownOccursOnce state what that entails |
| TreeAddressing.RowCount | core/metaobjecttreemodel.cpp:176-180 | the length of the parent's child list; its contract is RowCountSpec |
| TreeAddressing.Parent | core/metaobjecttreemodel.cpp:182-192 | the address of the superclass; its contract is ParentAgreesWithMap |
| TreeAddressing.Sibling | core/metaobjecttreemodel.cpp:394 | Qt's default sibling: the same parent with another row and column; its contract is SiblingOfAddress |
| TreeAddressing.IndexForMetaObject | core/metaobjecttreemodel.cpp:349-368 | the address built from the parent's address and the position in its child list; its contract is IndexForMetaObjectSpec, with AddressRoundTrip for the way back |
| TreeAddressing.IndexOf | core/metaobjecttreemodel.cpp:362 | -1 exactly when the id is absent, otherwise its first position |
| TreeAddressing.MatchMetaObject | core/metaobjecttreemodel.cpp:206-213 | match on the descriptor role returns exactly one index, which is valid exactly for a known descriptor and then addresses it |
| TreeAddressing.EmptyTreeValid | core/metaobjecttreemodel.cpp:80-83 | the fresh model's empty maps satisfy the tree invariant |
| TreeAddressing.KnownLine | core/metaobjecttreemodel.cpp:284-288 | every descriptor on a known descriptor's chain is known |
| TreeAddressing.KnownOccursOnce | core/metaobjecttreemodel.cpp:294-298 | a known descriptor is in a child list exactly when that list belongs to its recorded parent, and it occurs there once |
| TreeAddressing.IndexForMetaObjectSpec | core/metaobjecttreemodel.cpp:349-368 | indexForMetaObject is valid exactly for known descriptors; then its row is the position in the parent's child list, its column is 0, and metaObjectForIndex gives the descriptor back |
| TreeAddressing.AddressRoundTrip | core/metaobjecttreemodel.cpp:194-204 | every in-range row under a proper parent address names a descriptor whose own address is that index |
| TreeAddressing.RowCountSpec | core/metaobjecttreemodel.cpp:176-180 | rowCount of a descriptor's address is its child-list length; an unknown parent has 0 rows; the invalid index has the root list's length |
| TreeAddressing.ParentAgreesWithMap | core/metaobjecttreemodel.cpp:182-192 | parent(), computed from superClass(), addresses the recorded parent, and is invalid exactly for roots |
| TreeAddressing.SiblingOfAddress | core/metaobjecttreemodel.cpp:394 | the sibling of a descriptor's address in another column keeps the row and the descriptor |
| TreeInsertion.AppendChild | core/metaobjecttreemodel.cpp:294-298 | the child is appended to its parent's list, other lists are unchanged, and the child's parent entry is set |
| TreeInsertion.AppendChildValid | core/metaobjecttreemodel.cpp:294-298 | appending a new descriptor whose superclass is known (or null) keeps the tree invariant |
| TreeInsertion.InsertTree | core/metaobjecttreemodel.cpp:278-301 | addMetaObject keeps the tree invariant, and the known descriptors become the old ones plus the argument's whole chain |
| TreeInsertion.InsertTreeIdempotent | core/metaobjecttreemodel.cpp:280-282 | for a known descriptor nothing changes, so a second call is a no-op |
| TreeInsertion.InsertTreeKeepsOld | core/metaobjecttreemodel.cpp:294-298 | known descriptors keep their parent, and every old child list is a prefix of the new one |
| TreeInsertion.InsertTreeAddsOnlyNew | core/metaobjecttreemodel.cpp:284-298 | every entry added to any child list is one of the newly inserted descriptors |
| TreeInsertion.InsertTreeKeepsStartList | core/metaobjecttreemodel.cpp:284-288 | inserting a descriptor's missing ancestors leaves that descriptor's own child list unchanged |
| TreeInsertion.InsertTreeAppends | core/metaobjecttreemodel.cpp:294-297 | each new descriptor ends up exactly one entry past the old end of its superclass's child list |
| TreeInsertion.InsertAll | core/metaobjecttreemodel.cpp:263-276 | addMetaObject of each type in turn keeps the tree invariant and loses no known descriptor |
| TreeInsertion.InsertAllKeys | core/metaobjecttreemodel.cpp:263-276 | after seeding, the known descriptors are exactly the old ones plus every superclass chain of the seeded types |
| TreeInsertion.InsertAllKnowsTypes | core/metaobjecttreemodel.cpp:263-276 | after seeding every seeded type is known, and no known descriptor is lost |
| TreeInsertion.InsertAllKeepsOld | core/metaobjecttreemodel.cpp:263-276 | seeding keeps every parent entry, and every old child list is a prefix of the new one |
| TreeCounts.AddInstance | core/metaobjecttreemodel.cpp:252-260 | the counters after one instance of `d`: `d`'s self count and the inclusive count of every type on its chain go up by exactly 1; nothing else changes |
| TreeCounts.RemoveInstance | core/metaobjecttreemodel.cpp:329-339 | the counters after removing one instance of `d`: exactly the reverse of AddInstance |
| TreeCounts.CountingAddPreserves | core/metaobjecttreemodel.cpp:252-260 | counting one instance keeps `inclusive = self + sum of children's inclusive` at every known type |
| TreeCounts.CountingRemovePreserves | core/metaobjecttreemodel.cpp:329-339 | uncounting one instance keeps the same balance |
| TreeCounts.InsertTreeKeepsCounts | core/metaobjecttreemodel.cpp:278-301 | inserting descriptors, which start without counts, keeps the balance |
| TreeCounts.ZeroEntryKeepsValid | core/metaobjecttreemodel.cpp:324 | the default entry that `operator[]` creates for a known type keeps the balance |
| TreeCounts.InclusiveGrowsUpward | core/metaobjecttreemodel.cpp:252-260 | under the balance, self <= inclusive, and inclusive never decreases up the chain |
| TreeCounts.CountedOnceIsAddInstance | core/metaobjecttreemodel.cpp:252-260 | any counter map with the "counted once" property and the expected keys is AddInstance's result |
| TreeCounts.CountedOnceIsRemoveInstance | core/metaobjecttreemodel.cpp:329-339 | any counter map that is "counted once" below the current one, with the same keys, is RemoveInstance's result |
| TreeCounts.RemoveUndoesAdd | core/metaobjecttreemodel.cpp:329-339 | removing an instance just added restores every counter |
| TreeCounts.AddUndoesRemove | core/metaobjecttreemodel.cpp:252-260 | adding back a removed instance restores the map exactly |
| TreeCounts.ValidRemovable | core/metaobjecttreemodel.cpp:329-336 | under the balance, a known type with selfCount > 0 has every inclusive count on its chain > 0, so no counter goes negative |
| TreeCounts.AddInstanceKeepsValid | core/metaobjecttreemodel.cpp:252-260 | AddInstance keeps the counting invariant |
| TreeCounts.RemoveInstanceKeepsValid | core/metaobjecttreemodel.cpp:329-339 | RemoveInstance keeps the counting invariant |
| TreeCounts.AddWalkDone | core/metaobjecttreemodel.cpp:252-260 | the self-count bump followed by the chain walk yields exactly AddInstance |
| TreeCounts.RemoveWalkDone | core/metaobjecttreemodel.cpp:329-339 | the decrement followed by the chain walk yields exactly RemoveInstance |
| TreeCounts.DisplayPolicy | core/metaobjecttreemodel.cpp:149-163 | the Self and Incl. cells hold a number exactly when the chain reaches QObject and "-" otherwise; a never-counted type shows 0 |
| TreeCounts.Data | core/metaobjecttreemodel.cpp:141-168 | the cells of data(); their contract is DisplayPolicy |
| TreeCounts.InclusiveColumnAtLeastSelf | core/metaobjecttreemodel.cpp:153-160 | under the invariant the Incl. cell never shows less than the Self cell |
| TreeModel.InsertEventsCount | core/metaobjecttreemodel.cpp:296-300 | addMetaObject emits one rowsInserted per newly inserted descriptor |
| TreeModel.InsertEventsSingleRows | core/metaobjecttreemodel.cpp:296 | every rowsInserted announces exactly one row |
| TreeModel.InsertEventsLast | core/metaobjecttreemodel.cpp:290-296 | the last rowsInserted addresses the superclass and announces the row just past its list's old end |
| TreeModel.InsertAllEventsCount | core/metaobjecttreemodel.cpp:263-276 | seeding emits one rowsInserted per descriptor it adds |
| TreeModel.InsertAllEventsSingleRows | core/metaobjecttreemodel.cpp:263-276 | every rowsInserted of seeding announces exactly one row |
| TreeModel.AddStep | core/metaobjecttreemodel.cpp:284-300 | once the ancestors are in, the parent index is valid or the parent is null, and the single append finishes the insertion |
| TreeModel.EmittedSpec | core/metaobjecttreemodel.cpp:388-397 | each flushed signal is the count change of a known pending descriptor, and each known pending descriptor gets one |
| TreeModel.EmitStep | core/metaobjecttreemodel.cpp:390-395 | one loop step emits dataChanged over Self..Incl. of the descriptor's row exactly when its index is valid |
| TreeModel.EmittedNoDuplicates | core/metaobjecttreemodel.cpp:388-397 | no descriptor's change is emitted twice in one flush |
| TreeModel.MetaObjectTreeModel.constructor | core/metaobjecttreemodel.cpp:80-95 | empty maps, empty pending set, timer inactive, no signals |
| TreeModel.MetaObjectTreeModel.AddMetaObject | core/metaobjecttreemodel.cpp:278-301 | the new maps are InsertTree of the old ones, and the signals are InsertEvents |
| TreeModel.MetaObjectTreeModel.SeedMetaTypes | core/metaobjecttreemodel.cpp:263-276 | the loop leaves exactly the tree InsertAll of the old one, with exactly the InsertAllEvents signals; every given type becomes known and no known type is lost |
| TreeModel.MetaObjectTreeModel.ObjectAdded | core/metaobjecttreemodel.cpp:215-261 | with no type to count (dangling dynamic meta object), nothing changes; otherwise the type is inserted, counted by AddInstance, its chain becomes pending, and the timer runs |
| TreeModel.MetaObjectTreeModel.CountInstance | core/metaobjecttreemodel.cpp:252-260 | the counters become AddInstance of the old ones, keeping the balance |
| TreeModel.MetaObjectTreeModel.RaiseInclusiveCounts | core/metaobjecttreemodel.cpp:255-260 | the chain walk raises each inclusive count on the chain by 1 and schedules each type in it |
| TreeModel.MetaObjectTreeModel.ObjectRemoved | core/metaobjecttreemodel.cpp:309-342 | an unknown type changes nothing; a zero self count adds at most a default entry; otherwise the counters become RemoveInstance of the old ones, the chain becomes pending, and one dataChanged is emitted for the type's address |
| TreeModel.MetaObjectTreeModel.UncountInstance | core/metaobjecttreemodel.cpp:329-339 | the counters become RemoveInstance of the old ones, keeping the balance |
| TreeModel.MetaObjectTreeModel.LowerInclusiveCounts | core/metaobjecttreemodel.cpp:333-339 | the chain walk lowers each inclusive count on the chain by 1 and schedules each type in it |
| TreeModel.MetaObjectTreeModel.EmitPendingDataChanged | core/metaobjecttreemodel.cpp:388-397 | it visits each pending descriptor once, emits exactly Emitted for that order, and clears the set, skipped entries included |
| TreeModel.MetaObjectTreeModel.Timeout | core/metaobjecttreemodel.cpp:92-94 | the single-shot timer stops and the pending changes are flushed |
| TreeModel.MetaObjectTreeModel.ScheduleDataChange | core/metaobjecttreemodel.cpp:381-386 | the descriptor joins the pending set (repeats collapse), and the timer is started only if it was inactive |
| Text.NatToString | plugins/guisupport/guisupport.cpp:234-235 | QString::number of a non-negative value: at least one digit, all digits, no leading zero |
| Text.IntToString | plugins/guisupport/guisupport.cpp:248-251 | QString::number(int): number characters only, ends in a digit, and starts with '-' exactly for negative values |
| Text.NatToStringRoundTrip | plugins/guisupport/guisupport.cpp:234-235 | the digits read back as the value |
| Text.IntToStringRoundTrip | plugins/guisupport/guisupport.cpp:248-251 | the text reads back as the value |
| Text.IntToStringInjective | plugins/guisupport/guisupport.cpp:253-254 | two values have the same text exactly when they are equal |
| Text.Join | plugins/guisupport/guisupport.cpp:326 | QStringList::join: empty for no entries, the entry itself for one |
| Text.JoinHasBar | plugins/guisupport/guisupport.cpp:326 | with entries free of '\|', the joined text contains a '\|' exactly when there are two entries or more |
| Text.JoinInjective | plugins/guisupport/guisupport.cpp:326 | joining non-empty lists of entries free of '\|' with " \| " loses nothing |
| GuiSupport.RenderableTypeName | plugins/guisupport/guisupport.cpp:219-232 | each listed renderable type has its own name; any other value appends nothing |
| GuiSupport.ProfileSuffix | plugins/guisupport/guisupport.cpp:236-245 | " core" exactly for CoreProfile, " compat" exactly for CompatibilityProfile, otherwise nothing |
| GuiSupport.SwapBehaviorName | plugins/guisupport/guisupport.cpp:257-272 | each listed swap behaviour has its own name; any other value gives "unknown" |
| GuiSupport.SurfaceFormatToString | plugins/guisupport/guisupport.cpp:216-275 | the appends build exactly the header "type (major.minor[ profile])", then " RGBA: r/g/b/a Depth: d Stencil: s Buffer: " and the swap name |
| GuiSupport.HeaderDetermines | plugins/guisupport/guisupport.cpp:219-246 | the header determines both version numbers and the renderable-type and profile names |
| GuiSupport.SurfaceFormatTextDetermines | plugins/guisupport/guisupport.cpp:248-272 | the whole text determines every numeric field and every name |
| GuiSupport.SurfaceClassToString | plugins/guisupport/guisupport.cpp:277-288 | "Window" exactly for Window, "Offscreen" exactly for Offscreen, "Unknown Surface Class" for every other value |
| GuiSupport.SurfaceTypeToString | plugins/guisupport/guisupport.cpp:290-307 | each of the four surface types has its own name; every other value gives "Unknown Surface Type" |
| GuiSupport.ShaderTypeToString | plugins/guisupport/guisupport.cpp:310-327 | the push_backs and the join produce exactly ShaderTypeText |
| GuiSupport.ShaderTypeNamesOnce | plugins/guisupport/guisupport.cpp:313-321 | each shader-type name is listed exactly once if its bit is set, and not at all otherwise |
| GuiSupport.ShaderTypeNamesDetermine | plugins/guisupport/guisupport.cpp:313-321 | two values give the same name list exactly when they agree on the six known bits |
| GuiSupport.ShaderTypeNone | plugins/guisupport/guisupport.cpp:324-325 | "<none>" exactly when no shader-type bit is set |
| GuiSupport.ShaderTypeTextDetermines | plugins/guisupport/guisupport.cpp:324-326 | two values give the same text exactly when they agree on the six known bits |
| GuiSupport.PainterPathToString | plugins/guisupport/guisupport.cpp:348-353 | "<empty>" exactly for an empty path (no elements, or one MoveTo) |
| GuiSupport.PainterPathTextDetermines | plugins/guisupport/guisupport.cpp:348-353 | two paths have the same text exactly when both are empty, or neither is empty and they have the same element count |

## Left out

- `hasDynamicMetaObject` (core/metaobjecttreemodel.cpp:74-77) reads Qt private data through a cast. It is the `dynamic` flag of `ObjectAdded`.
- `scanMetaTypes` (core/metaobjecttreemodel.cpp:263-276) walks Qt's meta-type registry, which is not visible here. `SeedMetaTypes` takes the registered types, `staticQtMetaObject` included, as a sequence. The constructor leaves the tree empty, and seeding is a separate call.
- The timer's interval and the event loop are not modelled. The timer is a flag plus a ghost count of starts, and `Timeout` stands for the timer firing.
- `beginInsertRows`/`endInsertRows` and `emit dataChanged` are not modelled as Qt signals. The model records them as a ghost event log. Each row insertion is recorded as one `RowsInserted` event.
- Thread assertions, `qDebug` messages, the debug-only `assert`/`Q_ASSERT` checks, `headerData` (translated strings) and `removeMetaObject` (an empty TODO) are left out.
- `ObjectRemoved`: in the source, `operator[]` reads the self count and creates a default entry for a known type that has none. The model does the same and then returns, which is what the source does.
- `ObjectRemoved`: the constructor's `connect` for `objectRemoved` is commented out in the source (core/metaobjecttreemodel.cpp:88). The operation is modelled as written, even though nothing calls it there.
- The generic `QAbstractItemModel::match` for roles other than the descriptor role is not modelled. The same holds for `data` roles other than the display and descriptor roles, which return an empty value.
- The numeric value of the descriptor role is not visible here, so `Role` is a datatype.
- `EmitPendingDataChanged`: `foreach` over a `QSet` has no specified order. The method visits the pending set in an arbitrary order and returns that order as a ghost value.
- `TreeCounts.AddInstance`: the counters are unbounded `nat`s. The declaration of `selfCount` and `inclusiveCount` is in core/metaobjecttreemodel.h, which is not part of this model. The `>= 0` assertions (core/metaobjecttreemodel.cpp:330, 336) suggest a signed `int`. With the decrement never connected, QObject's inclusive count grows with every object created. After 2^31 creations the source's counter would overflow, and "up by exactly one" and non-negativity no longer describe it.
- `GuiSupport`: `tr()` translation is left out. The untranslated texts are used.
- `textLengthToString` formats a floating-point value. It is not modelled, nor are the registration macros, `registerVariantHandler` and `discoverObjects`.
- `GuiSupport.PainterPathToString`: a path is its sequence of element types. Coordinates are left out because the converter does not read them.
- `GuiSupport.SurfaceFormatTextDetermines`: the text shows the renderable type, the profile and the swap behaviour only by name. So it determines those names, not the enum values: every unlisted renderable type appends nothing and every unlisted swap behaviour gives "unknown".
- The other files of the repository are not part of this model. These include the Qt Quick overlay, the meta-object browser glue and widgets, and `objectinfo.h`.
