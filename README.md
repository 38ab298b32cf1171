# yup property tree, undo manager, rectangle list and label editing in Dafny

This project models four parts of the yup GUI library and proves what they promise.

- **The observable property tree (`DataModelTree`).** Nodes live in an arena (`map<NodeId, Node>`). Each node has:
  - a type id;
  - an insertion-ordered property set;
  - an ordered child list and a parent link;
  - a flag saying whether it is bound to an undo manager.

  Handles (`DataModelTree` objects) are object ids that map to the node they point at. Property writes, `addChild` and `removeChild` are values of the closed `TreeAction` datatype. They run through `perform`: directly on an unbound node, or through the shared undo manager on a bound one. Listener callbacks are appended to an event log, which the notification lemmas describe exactly. The `ValueTreeAdapter` wrapper and the `Property` / `PropertyIterator` accessors are modelled on top of this.
- **The coalescing linear undo engine (`UndoManager`).** It is generic in the world it changes. It has:
  - a timeline of groups (`CoallascatedItem`), capped at `HistorySize` = 30;
  - a pending group;
  - two cursors;
  - the synchronous and suspended flags.

  It is a Dafny class whose methods are proved against the timeline functions `Flush`, `Record` and `Navigate`. Lemmas then state what those functions keep.
- **`RectangleList` with integer coordinates.** A class over a `seq<Rect>`. `add` merges a new rectangle into the first one it overlaps and then runs the in-place `mergeRectangles` loop. The methods are proved against the functions `Added` and `MergeFrom`. The main property: adding loses no area, because every old rectangle and the new one lie inside some rectangle of the result.
- **The text editing of `Label`.** Two cursor objects and the insert splice, which the label submits to its own undo manager. The main properties: forward insert, undo and redo round-trip on the content; the clamping cursor moves; the selection.

Files:

- `common.dfy`: sequence helpers, with the `juce::Array` semantics the source relies on. Out-of-range inserts append. `addIfNotAlreadyThere`. Remove-first and remove-all.
- `undo_manager.dfy`: the undo engine.
- `tree_model.dfy`, `tree_dispatch.dfy`, `tree_actions.dfy`, `tree_traversal.dfy`, `tree_property.dfy`, `tree_forest.dfy`, `tree_adapter.dfy`: the property tree.
- `rectangle_list.dfy`: the rectangle list.
- `label.dfy`: the label editing.

## Model

Paths are relative to the repository root.

| member | source | states |
|---|---|---|
| Undo.EmptyItemDoesNothing | modules/yup_gui/application/yup_UndoManager.h:146-159 | an item whose weakly referenced target is gone runs nothing and reports failure |
| Undo.ItemCall | modules/yup_gui/application/yup_UndoManager.h:146-152 | Item::call runs the callback only while the target lives, otherwise reports failure |
| Undo.ItemIsEmpty | modules/yup_gui/application/yup_UndoManager.h:156-159 | Item::isEmpty: the target is gone |
| Undo.LiveItemRunsCallback | modules/yup_gui/application/yup_UndoManager.h:146-152 | while the target lives, an item's call is its callback run in the requested direction |
| Undo.GroupForward | modules/yup_gui/application/yup_UndoManager.cpp:88-96 | a group called forward: children first to last, a child whose call fails dropped; one outcome per child |
| Undo.GroupBackward | modules/yup_gui/application/yup_UndoManager.cpp:79-87 | a group called backward: children last to first, a child whose call fails dropped; one outcome per child |
| Undo.GroupCall | modules/yup_gui/application/yup_UndoManager.cpp:77-101 | CoallascatedItem::call in the requested direction |
| Undo.GroupForwardSelects | modules/yup_gui/application/yup_UndoManager.cpp:88-96 | replaying a group forward keeps exactly the children whose call succeeded, in their order |
| Undo.GroupBackwardSelects | modules/yup_gui/application/yup_UndoManager.cpp:79-87 | replaying a group backward (last child first) keeps exactly the children whose call succeeded, in their order |
| Undo.GroupForwardAppend | modules/yup_gui/application/yup_UndoManager.cpp:88-96 | a forward replay of a + b is a replay of a followed by a replay of b, on world and kept children |
| Undo.GroupBackwardAppend | modules/yup_gui/application/yup_UndoManager.cpp:79-87 | a backward replay of a + b undoes b first and then a |
| Undo.GroupKeepsSucceedingChildren | modules/yup_gui/application/yup_UndoManager.cpp:77-101 | when every child call succeeds the group keeps all its children |
| Undo.GroupCallPreserves | modules/yup_gui/application/yup_UndoManager.cpp:77-101 | any property of the world that every callback keeps survives a group replay in either direction |
| Undo.CallForward | modules/yup_gui/application/yup_UndoManager.cpp:88-96 | the index loop that steps back after an in-place removal computes the forward replay |
| Undo.CallBackward | modules/yup_gui/application/yup_UndoManager.cpp:79-87 | the descending index loop with in-place removal computes the backward replay |
| Undo.CallGroup | modules/yup_gui/application/yup_UndoManager.cpp:77-106 | CoallascatedItem::call replays in the requested direction and reports whether any child is left |
| Undo.FlushedHistory | modules/yup_gui/application/yup_UndoManager.cpp:132-156 | after a commit the pending group is the last entry and the timeline holds at most HistorySize groups |
| Undo.Flush | modules/yup_gui/application/yup_UndoManager.cpp:132-156 | an empty pending group commits nothing; otherwise the pending group empties, the undo cursor is on the new last entry and the redo cursor just past it |
| Undo.FlushKeepsUndoBranch | modules/yup_gui/application/yup_UndoManager.cpp:140-150 | a commit drops the redo branch, keeps at most the newest HistorySize - 1 entries before the redo cursor, and appends the pending group |
| Undo.FlushPreservesValid | modules/yup_gui/application/yup_UndoManager.cpp:132-156 | a commit keeps the timeline within HistorySize and the cursors adjacent (or both -1 on an empty timeline) |
| Undo.RecordAppendsOnlySuccesses | modules/yup_gui/application/yup_UndoManager.cpp:32-46 | in asynchronous mode perform leaves the timeline alone and adds the action to the pending group only if it succeeded and recording is not suspended |
| Undo.SynchronousRecordIsolates | modules/yup_gui/application/yup_UndoManager.cpp:34-35 | in synchronous mode the previous pending group is committed first, so each recorded action is alone in its group |
| Undo.RecordPreservesValid | modules/yup_gui/application/yup_UndoManager.cpp:32-46 | perform keeps the timeline invariant |
| Undo.Record | modules/yup_gui/application/yup_UndoManager.cpp:32-46 | perform on the timeline: commit first when synchronous, then append the item to the pending group iff it succeeded and recording is not suspended |
| Undo.NavigateOutcome | modules/yup_gui/application/yup_UndoManager.cpp:113-130 | undo/redo succeed exactly when the committed timeline has an entry under the cursor; then that group is replayed and both cursors shift by one, otherwise world and cursors stay |
| Undo.NavigatePreservesValid | modules/yup_gui/application/yup_UndoManager.cpp:113-130 | undo and redo keep the timeline invariant, and once something was committed the cursors stay adjacent |
| Undo.NavigatePreserves | modules/yup_gui/application/yup_UndoManager.cpp:113-130 | undo and redo keep every property of the world that each callback keeps |
| Undo.Navigate | modules/yup_gui/application/yup_UndoManager.cpp:113-130 | internalUndo on the timeline: commit, then replay the entry under the cursor in that direction and shift both cursors, or change nothing |
| Undo.InitialTimelineIsInert | modules/yup_gui/application/yup_UndoManager.cpp:113-130 | a new manager has nothing to undo or redo |
| Undo.UndoThenRedoTargetsSameEntry | modules/yup_gui/application/yup_UndoManager.cpp:120-126 | after a successful undo the redo cursor sits on the entry just undone |
| Undo.PendingAfterSetEnabledAsWritten | modules/yup_gui/application/yup_UndoManager.cpp:58-75 | setEnabled with no change of state leaves the pending-group pointer as it was |
| Undo.DisablingLeavesNoPendingGroup | modules/yup_gui/application/yup_UndoManager.cpp:68-71 | as written, disabling an enabled manager leaves a null pending group, which the next flush dereferences |
| Undo.FlushAsWrittenIsDefined | modules/yup_gui/application/yup_UndoManager.cpp:132-134 | flushCurrentAction reads the pending group through its pointer first, so it needs one to exist |
| Undo.UndoManager.constructor | modules/yup_gui/application/yup_UndoManager.cpp:24-30 | a new manager has an empty timeline, both cursors at -1, an empty pending group, and a running timer iff startTimer |
| Undo.UndoManager.FlushCurrentAction | modules/yup_gui/application/yup_UndoManager.cpp:132-156 | the step-by-step commit is Flush, reports whether anything was pending and keeps the invariant |
| Undo.UndoManager.Perform | modules/yup_gui/application/yup_UndoManager.cpp:32-46 | perform runs the action forward, returns its result, and leaves the timeline Record describes |
| Undo.UndoManager.PerformOn | modules/yup_gui/application/yup_UndoManager.h:112-117 | the template perform wraps object and callback in an item and performs it |
| Undo.UndoManager.InternalUndo | modules/yup_gui/application/yup_UndoManager.cpp:113-130 | internalUndo changes world, timeline and result exactly as Navigate says, keeping the invariant |
| Undo.UndoManager.Undo | modules/yup_gui/application/yup_UndoManager.cpp:48-51 | undo is internalUndo(true) |
| Undo.UndoManager.Redo | modules/yup_gui/application/yup_UndoManager.cpp:53-56 | redo is internalUndo(false) |
| Undo.UndoManager.SetSynchronousMode | modules/yup_gui/application/yup_UndoManager.h:129 | the synchronous flag becomes the argument |
| Undo.UndoManager.SetSuspended | modules/yup_gui/application/yup_UndoManager.h:88-95 | the suspended flag becomes the argument, which is what a scoped deactivation sets and restores |
| Undo.UndoManager.SetEnabled | modules/yup_gui/application/yup_UndoManager.cpp:58-75 | acts only on a change: enabling starts the timer with an empty pending group; disabling stops it, clears the history and (corrected) empties the pending group |
| TreeModel.Listener.constructor | modules/yup_gui/application/yup_ValueTree.h:167-201 | a new listener has no registrations |
| TreeModel.Listener.Attach | modules/yup_gui/application/yup_ValueTree.h:190-194 | attach(true) counts one more registration, attach(false) one fewer but never below zero |
| TreeModel.Listener.Matches | modules/yup_gui/application/yup_ValueTree.h:228 | a listener with no key filter matches every key, otherwise exactly the listed keys |
| TreeModel.Listener.MayBeDestroyed | modules/yup_gui/application/yup_ValueTree.h:181-184 | the destructor's assertion: no registration is outstanding |
| TreeModel.IsDangling | modules/yup_gui/application/yup_ValueTree.h:245 | a lambda listener dangles once its weakly referenced object is gone; other listeners never dangle (h:188) |
| TreeModel.Defines | modules/yup_gui/application/yup_ValueTree_impl.h:90-91 | properties.contains: some stored pair has the key |
| TreeModel.Lookup | modules/yup_gui/application/yup_ValueTree_impl.h:109 | properties[id]: the value stored under the key, Void when it is absent |
| TreeModel.Store | modules/yup_gui/application/yup_ValueTree_impl.h:75-76 | properties.set: the key then reads the new value; the set grows only when the key was absent; every stored key keeps its position |
| TreeModel.StoreKeepsOtherKeys | modules/yup_gui/application/yup_ValueTree_impl.h:75-76 | writing one key changes neither the value nor the presence of any other key |
| TreeModel.StoreRestores | modules/yup_gui/application/yup_ValueTree_impl.h:68-79 | writing back the value read before a write restores the set exactly; a key that was absent comes back defined as Void |
| TreeModel.GetNumChildren | modules/yup_gui/application/yup_ValueTree.h:92-98 | the length of the node's child list; 0 for an empty handle |
| TreeModel.GetChild | modules/yup_gui/application/yup_ValueTree.cpp:166-177 | a child comes back exactly when the handle is bound and the index in range, and it is the child listed at that index |
| TreeModel.ChildIndicesAreCount | modules/yup_gui/application/yup_ValueTree.cpp:166-177 | getChild answers exactly the indices 0 .. getNumChildren() - 1, and every listed child is answered at some index |
| TreeModel.IndexOfChild | modules/yup_gui/application/yup_ValueTree.h:125-131 | -1 for an empty handle or a child not listed; otherwise an index at which getChild gives that child |
| TreeModel.GetChildIndexOf | modules/yup_gui/application/yup_ValueTree.h:125-131 | on a child list without repetitions indexOf inverts getChild |
| TreeModel.GetChildWithName | modules/yup_gui/application/yup_ValueTree.cpp:179-191 | the result is the first child of that type; empty exactly when no child has it |
| TreeModel.GetParent | modules/yup_gui/application/yup_ValueTree.cpp:193-199 | the node's parent link; none for an empty handle |
| TreeModel.GetType | modules/yup_gui/application/yup_ValueTree.cpp:201-207 | the node's type id; the empty identifier for an empty handle |
| TreeModel.IsChildOf | modules/yup_gui/application/yup_ValueTree.h:117-123 | false for an empty handle; true for a non-empty other handle only if it is the parent |
| TreeModel.IsChildOfParent | modules/yup_gui/application/yup_ValueTree.h:117-123 | isChildOf(p) holds iff p's node is the parent, compared by identity; a root is a child of the empty handle |
| TreeDispatch.Prune | modules/yup_gui/application/yup_ValueTree.cpp:374-381 | pruning never grows either list |
| TreeDispatch.PruneKeeps | modules/yup_gui/application/yup_ValueTree.cpp:374-381 | the owned list keeps exactly its non-dangling listeners; the property list loses no live listener and gains nothing |
| TreeDispatch.PruneIdempotent | modules/yup_gui/application/yup_ValueTree.cpp:374-381 | pruning an already pruned listener set changes nothing |
| TreeDispatch.PruneKeepsLive | modules/yup_gui/application/yup_ValueTree.cpp:374-381 | on well-formed lists a property listener survives pruning iff it is not dangling |
| TreeDispatch.PrunedListIsLiveListeners | modules/yup_gui/application/yup_ValueTree_impl.h:35-51 | since a lambda listener sits in both lists, the pruned property list is exactly the live part of the original, so a dangling lambda listener is never called |
| TreeDispatch.PruneDangling | modules/yup_gui/application/yup_ValueTree.cpp:374-381 | the index loop with removeAndReturn(i--) computes Prune |
| TreeDispatch.ShouldFire | modules/yup_gui/application/yup_ValueTree.cpp:385-387 | a listener fires at a node iff it is recursive or the change happened on that node, and its filter matches the key |
| TreeDispatch.FireAt | modules/yup_gui/application/yup_ValueTree.cpp:383-391 | the callbacks at one node, in list order, never more than the listeners listed |
| TreeDispatch.FireAtExactly | modules/yup_gui/application/yup_ValueTree.cpp:383-391 | at one node a listener is called iff it is listed, recursive or on the originating node, and its filter matches |
| TreeDispatch.DispatchAt | modules/yup_gui/application/yup_ValueTree.cpp:372-392 | a node without listeners is left alone; otherwise its lists are pruned and the admitted listeners called, and nothing else changes |
| TreeDispatch.SendPropertyChange | modules/yup_gui/application/yup_ValueTree.cpp:370-398 | the message only appends events and prunes listener lists, never touching nodes or handles |
| TreeDispatch.Chain | modules/yup_gui/application/yup_ValueTree.cpp:394-397 | the nodes the message visits: the written node first, then its ancestors through the parent links |
| TreeDispatch.SendPropertyChangeFires | modules/yup_gui/application/yup_ValueTree.cpp:370-398 | the callbacks made are exactly those of the non-dangling admitted listeners on the written node and each ancestor, each naming the node whose list it came from |
| TreeDispatch.SendChildChange | modules/yup_gui/application/yup_ValueTree.cpp:358-368 | a child message only appends events |
| TreeDispatch.ChildEvents | modules/yup_gui/application/yup_ValueTree.cpp:362-366 | one callback per child listener, in list order, each naming the parent, the child and wasAdded |
| TreeDispatch.SendChildChangeFires | modules/yup_gui/application/yup_ValueTree.cpp:358-368 | a child message calls exactly the child listeners of the parent itself, with no filter and no walk to ancestors |
| TreeActions.Attach | modules/yup_gui/application/yup_ValueTree.cpp:302-311 | the child gets this parent and its binding and is inserted at index (appended when out of range); both must be in the arena |
| TreeActions.Detach | modules/yup_gui/application/yup_ValueTree.cpp:313-324 | corrected remove: a listed child leaves the parent's list and loses parent and binding; otherwise nothing changes |
| TreeActions.DetachAsWritten | modules/yup_gui/application/yup_ValueTree.cpp:313-324 | remove as written: the parent's node is left untouched and the set of nodes is kept |
| TreeActions.DetachAsWrittenKeepsChild | modules/yup_gui/application/yup_ValueTree.cpp:317 | as written, removal leaves the child in its parent's list with no parent link, and re-adding it lists it twice |
| TreeActions.AttachDetachRoundTrip | modules/yup_gui/application/yup_ValueTree.cpp:302-324 | detaching an attached child restores every node except that the child ends unbound |
| TreeActions.TreeRun | modules/yup_gui/application/yup_ValueTree.cpp:570-579 | no action changes the set of nodes, the handles or the other objects (corrected remove, see Findings) |
| TreeActions.SetPropNodes | modules/yup_gui/application/yup_ValueTree_impl.h:73-79 | a property write changes only the written node's properties, storing the new value forward and the old one on undo |
| TreeActions.AddChildNodes | modules/yup_gui/application/yup_ValueTree.cpp:240-256 | addChild's callback attaches forward and detaches on undo (corrected remove, see Findings) |
| TreeActions.RemoveChildNodes | modules/yup_gui/application/yup_ValueTree.cpp:273-290 | removeChild's callback detaches forward and re-attaches at the old index on undo (corrected remove, see Findings) |
| TreeActions.SetPropRoundTrip | modules/yup_gui/application/yup_ValueTree_impl.h:60-85 | read after write gives the new value with other keys unchanged; undo restores the old properties (an absent key comes back as Void); redo writes again |
| TreeActions.AddChildRoundTrip | modules/yup_gui/application/yup_ValueTree.cpp:234-263 | the child is listed at the requested place (appended for -1) with this parent and binding; undo restores every node except that the child is left unbound (corrected remove, see Findings) |
| TreeActions.RemoveChildRoundTrip | modules/yup_gui/application/yup_ValueTree.cpp:265-295 | the child leaves the list and loses its parent; undo restores every node exactly; redo removes it again (corrected remove, see Findings) |
| TreeTraversal.FirstHit | modules/yup_gui/application/yup_ValueTree.cpp:67-84 | the first accepted position, with no accepted node before it |
| TreeTraversal.Scan | modules/yup_gui/application/yup_ValueTree.cpp:67-98 | a stopping scan reports true iff some node is accepted, and visits exactly the nodes up to the first accepted one |
| TreeTraversal.PreOrder | modules/yup_gui/application/yup_ValueTree.cpp:67-84 | the subtree in depth-first pre-order: the node, then each child's subtree in order |
| TreeTraversal.ForEach | modules/yup_gui/application/yup_ValueTree.cpp:67-84 | forEach as the source recurses: whether the visitor stopped, and the nodes visited |
| TreeTraversal.ForEachParent | modules/yup_gui/application/yup_ValueTree.cpp:86-98 | forEachParent as the source recurses: whether the visitor stopped, and the nodes visited |
| TreeTraversal.ForEachIsPreOrderScan | modules/yup_gui/application/yup_ValueTree.cpp:67-84 | forEach is a stopping scan of the subtree in depth-first pre-order |
| TreeTraversal.ForEachChildrenIsPreOrderScan | modules/yup_gui/application/yup_ValueTree.cpp:74-80 | the loop over the children is a stopping scan of their pre-orders in sequence |
| TreeTraversal.ForEachParentIsChainScan | modules/yup_gui/application/yup_ValueTree.cpp:86-98 | forEachParent is a stopping scan of the node and its ancestors, in order |
| TreeTraversal.GetRoot | modules/yup_gui/application/yup_ValueTree.cpp:209-222 | the result has no parent and lies on the parent chain; a root or an empty handle gives itself |
| TreeProperty.Access | modules/yup_gui/application/yup_ValueTree.cpp:326-340 | operator[] binds the accessor to the handle's node and key; an empty handle gives an unbound accessor |
| TreeProperty.IsBound | modules/yup_gui/application/yup_ValueTree_impl.h:96-98 | operator bool: the accessor's parent pointer is not null, even when the handle it points at is empty |
| TreeProperty.IsDefined | modules/yup_gui/application/yup_ValueTree_impl.h:88-94 | isDefined: bound and the key is stored |
| TreeProperty.Get | modules/yup_gui/application/yup_ValueTree_impl.h:104-113 | get(default): the stored value (Void when absent) when bound, the default otherwise |
| TreeProperty.GetUsesDefaultOnlyWhenUnbound | modules/yup_gui/application/yup_ValueTree_impl.h:104-113 | get ignores the default when bound: an absent key reads Void, a stored key reads the stored value; unbound it returns the default |
| TreeProperty.PropertyIterator.constructor | modules/yup_gui/application/yup_ValueTree_impl.h:121-137 | one accessor per stored property, in stored order, bound to the node; none for an empty handle |
| TreeProperty.PropertyIterator.Find | modules/yup_gui/application/yup_ValueTree_impl.h:139-149 | the result points at the iterator's handle and names the key, and is the stored accessor when there is one; it is always bound, and readable exactly when the handle points at a node, so on an iterator over an empty handle it is bound yet unreadable |
| TreeProperty.PropertyIterator.At | modules/yup_gui/application/yup_ValueTree.h:331-335 | operator[](index) returns the accessor at that index, bound to the node |
| TreeProperty.IterateProperties | modules/yup_gui/application/yup_ValueTree_impl.h:151-153 | size() is the number of stored properties and every accessor names a stored key |
| TreeForest.TreeRunKeepsClosed | modules/yup_gui/application/yup_ValueTree.cpp:570-579 | every action in either direction keeps all handle, child and parent links inside the arena |
| TreeForest.NavigateKeepsStable | modules/yup_gui/application/yup_UndoManager.cpp:113-130 | undo and redo on the tree keep the arena closed and its nodes, handles and objects |
| TreeForest.CreatedChildIsFound | modules/yup_gui/application/yup_ValueTree.cpp:224-232 | the node appended by getOrCreateChildWithName is what getChildWithName finds next |
| TreeForest.HandleOf | modules/yup_gui/application/yup_ValueTree.h:83 | the data pointer of a handle: empty iff the object is not a live handle, otherwise a node in the arena |
| TreeForest.ListenersOf | modules/yup_gui/application/yup_ValueTree.cpp:400-411 | getListeners(true): the node's listener lists, empty ones for a node that has none yet |
| TreeForest.Forest.constructor | modules/yup_gui/application/yup_UndoManager.cpp:24-30 | an empty arena and a new manager with an empty timeline |
| TreeForest.Forest.CreateTree | modules/yup_gui/application/yup_ValueTree.cpp:134-136 | a fresh node with the type id and nothing else, bound iff a manager is given, and a fresh handle to it |
| TreeForest.Forest.NewHandle | modules/yup_gui/application/yup_ValueTree.h:64-66 | a copy is a fresh handle to the same node |
| TreeForest.Forest.Release | modules/yup_gui/application/yup_ValueTree.h:453 | a destroyed handle or object is no longer alive for weak references |
| TreeForest.Forest.Perform | modules/yup_gui/application/yup_ValueTree.cpp:570-579 | the action runs forward on the handle either way, and is recorded in the manager exactly when the node is bound |
| TreeForest.Forest.PerformRecorded | modules/yup_gui/application/yup_ValueTree.cpp:574-575 | a bound node's action runs forward through the manager, which records it as Record says |
| TreeForest.Forest.PerformDirect | modules/yup_gui/application/yup_ValueTree.cpp:576-577 | an unbound node's action runs forward and nothing else changes |
| TreeForest.Forest.NewNode | modules/yup_gui/application/yup_ValueTree.cpp:297-300 | a fresh node with the type id, no properties, no children, no parent and no manager; nothing else changes |
| TreeForest.Forest.NewObject | modules/yup_gui/application/yup_ValueTree.h:58 | a default-constructed, empty DataModelTree (or another weakly referenceable object): a new live object id that no handle maps to a node; nothing else changes |
| TreeForest.Forest.SetProperty | modules/yup_gui/application/yup_ValueTree_impl.h:60-85 | the old value is read first and a write is performed; the key then reads the new value, other keys and other nodes are unchanged |
| TreeForest.Forest.AddChild | modules/yup_gui/application/yup_ValueTree.cpp:234-263 | with an empty child or on an empty handle nothing happens, arena and manager included, and only a non-empty handle demands that the child have no parent; otherwise an attach at index is performed; the child is returned (corrected remove, see Findings) |
| TreeForest.Forest.RemoveChild | modules/yup_gui/application/yup_ValueTree.cpp:265-295 | only a listed child of a non-empty handle is removed, with its index captured for undo; an empty handle or child changes nothing; the result is always false (corrected remove, see Findings) |
| TreeForest.Forest.GetOrCreateChildWithName | modules/yup_gui/application/yup_ValueTree.cpp:224-232 | an existing child of that type is returned with nothing changed; otherwise a new node is made and the arena is exactly the addChild(-1) of it, recorded as addChild is: appended with this parent on a non-empty handle, left detached with nothing else changed on an empty one; on a non-empty handle getChildWithName then finds the result, so a second call changes nothing |
| TreeForest.Forest.AddPropertyListener | modules/yup_gui/application/yup_ValueTree.cpp:100-105 | the listener joins the node's property list unless already there, creating the lists if needed; its attachment count goes up |
| TreeForest.Forest.RemovePropertyListener | modules/yup_gui/application/yup_ValueTree.cpp:107-114 | only a non-empty handle whose node has listener lists is touched: the first occurrence goes and the count goes down, not below 0; otherwise arena and count stay |
| TreeForest.Forest.AddChildListener | modules/yup_gui/application/yup_ValueTree.cpp:116-121 | as for property listeners, on the child listener list |
| TreeForest.Forest.RemoveChildListener | modules/yup_gui/application/yup_ValueTree.cpp:123-130 | as for property listeners, on the child listener list, an empty handle included |
| TreeForest.Forest.AddLambdaPropertyListener | modules/yup_gui/application/yup_ValueTree_impl.h:42-51 | a new listener on the weak target is appended to the owned list and the property list; its attachment count is untouched |
| TreeForest.Forest.AddLambdaPropertyListenerOnSelf | modules/yup_gui/application/yup_ValueTree.h:273-277 | the handle itself is the weak target |
| TreeForest.Forest.Undo | modules/yup_gui/application/yup_UndoManager.cpp:48-51 | undo on the shared manager changes arena and timeline as Navigate says and keeps the arena closed |
| TreeForest.Forest.Redo | modules/yup_gui/application/yup_UndoManager.cpp:53-56 | redo likewise |
| TreeAdapter.AdapterListener.constructor | modules/yup_gui/application/yup_ValueTree.h:481-516 | an adapter listener is a fresh recursive property listener with no filter plus a child listener, both with no registrations |
| TreeAdapter.Decide | modules/yup_gui/application/yup_ValueTree.h:638-662 | the mutation runs as asked iff the wish for undo matches the binding, is refused iff undo is wanted on a node without manager, and runs with the manager deactivated iff a bound node's manager is not wanted |
| TreeAdapter.SameNode | modules/yup_gui/application/yup_ValueTree.h:578-596 | operator== and isEquivalentTo compare the data pointers: two adapters are equal iff their handles point at the same node, two empty handles included |
| TreeAdapter.SameNodeSeesWrites | modules/yup_gui/application/yup_ValueTree.h:578-596 | equality is identity: a property write through one handle is read through every equal handle, leaves the node of every unequal handle as it was (whatever its contents), and does not change which handles are equal |
| TreeAdapter.ValueTreeAdapter.IsValid | modules/yup_gui/application/yup_ValueTree.h:588-591 | isValid: the adapter's handle is not empty |
| TreeAdapter.ValueTreeAdapter.constructor | modules/yup_gui/application/yup_ValueTree.h:518-520 | a new adapter wraps the handle and has no listeners |
| TreeAdapter.ValueTreeAdapter.AddListener | modules/yup_gui/application/yup_ValueTree.h:609-617 | a listener already in the adapter's list changes nothing; otherwise it is added and registered as property and as child listener |
| TreeAdapter.ValueTreeAdapter.Register | modules/yup_gui/application/yup_ValueTree.h:613-614 | the node's property list and child list each gain the listener's part once (no duplicate), and each part's attachment count goes up by one; nothing else in the arena changes |
| TreeAdapter.ValueTreeAdapter.RemoveListener | modules/yup_gui/application/yup_ValueTree.h:619-626 | every instance leaves the list; the node registrations are dropped iff exactly one was removed, that is iff it was there |
| TreeAdapter.ValueTreeAdapter.Unregister | modules/yup_gui/application/yup_ValueTree.h:623-624 | on a node with listener lists the first occurrence of each part leaves its list and each count goes down, not below zero; on an empty handle or a node without lists nothing changes |
| TreeAdapter.ValueTreeAdapter.SetProperty | modules/yup_gui/application/yup_ValueTree.h:541-547 | per performWithUndo: misuse changes nothing; a match performs the write; a bound node written without undo performs it unrecorded and restores the suspension flag |
| TreeAdapter.ValueTreeAdapter.SetPropertyDeactivated | modules/yup_gui/application/yup_ValueTree.h:655-660 | the write happens and the manager's timeline changes as for a suspended perform (nothing recorded); the suspension flag ends as it started |
| TreeAdapter.ValueTreeAdapter.GetProperty | modules/yup_gui/application/yup_ValueTree.h:536-539 | the stored value, Void when the key is absent or the handle is empty |
| Rectangles.Smallest | modules/yup_graphics/primitives/yup_RectangleList.h:289 | the merged rectangle contains both inputs and lies inside every rectangle that contains both |
| Rectangles.ContainsPoint | modules/yup_graphics/primitives/yup_RectangleList.h:132-141 | contains(x, y) iff some rectangle contains the point |
| Rectangles.IntersectsAny | modules/yup_graphics/primitives/yup_RectangleList.h:155-169 | intersects iff some rectangle overlaps the area |
| Rectangles.CoversKeepsPoints | modules/yup_graphics/primitives/yup_RectangleList.h:132-141 | a list covering another contains every point the other contains |
| Rectangles.Partner | modules/yup_graphics/primitives/yup_RectangleList.h:282-293 | the inner merge loop finds the first other rectangle the current one overlaps, or none |
| Rectangles.MergeStepCovers | modules/yup_graphics/primitives/yup_RectangleList.h:287-291 | growing the partner and erasing the current rectangle loses no area |
| Rectangles.MergeFromCovers | modules/yup_graphics/primitives/yup_RectangleList.h:275-297 | mergeRectangles never adds rectangles and loses no area |
| Rectangles.MergeFromDisjoint | modules/yup_graphics/primitives/yup_RectangleList.h:275-297 | a list without overlapping pairs is left as it is |
| Rectangles.MergeFromPasses | modules/yup_graphics/primitives/yup_RectangleList.h:277-295 | a rectangle that overlaps no other is passed: the pass goes on at the next position |
| Rectangles.MergeFromMerges | modules/yup_graphics/primitives/yup_RectangleList.h:281-291 | a rectangle whose first overlapped rectangle is j grows j and is erased, and the pass stays at its position |
| Rectangles.MergeFromLeavesOverlap | modules/yup_graphics/primitives/yup_RectangleList.h:277-295 | the pass is a single forward one: when the third of four rectangles merges into the fourth and the grown rectangle absorbs the first, the second, already passed, is not checked again, and the result is the grown rectangle and the second, which still overlap |
| Rectangles.OverlapWitness | modules/yup_graphics/primitives/yup_RectangleList.h:277-295 | (0,0,1,1), (3,3,1,1), (0,5,10,1) and (9,0,1,10) meet the conditions of MergeFromLeavesOverlap |
| Rectangles.MergeFrom | modules/yup_graphics/primitives/yup_RectangleList.h:275-297 | mergeRectangles from a position on: a rectangle with a partner is merged into it and erased, one without is passed |
| Rectangles.FirstIntersecting | modules/yup_graphics/primitives/yup_RectangleList.h:58-67 | add's search finds the first rectangle the new one overlaps, or none |
| Rectangles.AddedCovers | modules/yup_graphics/primitives/yup_RectangleList.h:54-78 | add loses no area and covers the new rectangle; with an overlap the count does not grow; without one add is addWithoutMerge |
| Rectangles.Added | modules/yup_graphics/primitives/yup_RectangleList.h:54-78 | add: merge into the first overlapped rectangle and re-merge, or add without merging |
| Rectangles.OffsetMovesPoints | modules/yup_graphics/primitives/yup_RectangleList.h:232-238 | after offset a point moved by the same delta is contained iff the original point was |
| Rectangles.RectangleList.constructor | modules/yup_graphics/primitives/yup_RectangleList.h:35 | a new list is empty |
| Rectangles.RectangleList.FromRectangles | modules/yup_graphics/primitives/yup_RectangleList.h:37-40 | the list holds the given rectangles in order |
| Rectangles.RectangleList.Add | modules/yup_graphics/primitives/yup_RectangleList.h:54-78 | add leaves the list Added describes |
| Rectangles.RectangleList.AddWithoutMerge | modules/yup_graphics/primitives/yup_RectangleList.h:80-85 | the rectangle is appended only when no equal one is present, so a list without repetitions keeps none |
| Common.AddIfAbsentKeepsNoDup | modules/yup_graphics/primitives/yup_RectangleList.h:80-85 | appending only when absent never creates a repetition |
| Rectangles.RectangleList.MergeRectangles | modules/yup_graphics/primitives/yup_RectangleList.h:275-297 | the nested loop with erase-in-place computes MergeFrom |
| Rectangles.RectangleList.Remove | modules/yup_graphics/primitives/yup_RectangleList.h:91-96 | every equal rectangle goes, every other one stays |
| Rectangles.RectangleList.GetNumRectangles | modules/yup_graphics/primitives/yup_RectangleList.h:176-179 | the count is 0 exactly when isEmpty |
| Rectangles.RectangleList.IsEmpty | modules/yup_graphics/primitives/yup_RectangleList.h:103-106 | isEmpty: no rectangles |
| Rectangles.RectangleList.ContainsRect | modules/yup_graphics/primitives/yup_RectangleList.h:127-130 | contains(rect): an equal rectangle is in the list |
| Rectangles.RectangleList.Clear | modules/yup_graphics/primitives/yup_RectangleList.h:110-113 | afterwards the list is empty |
| Rectangles.RectangleList.Contains | modules/yup_graphics/primitives/yup_RectangleList.h:132-146 | true iff some rectangle contains the point |
| Rectangles.RectangleList.IntersectsRect | modules/yup_graphics/primitives/yup_RectangleList.h:155-169 | true iff some rectangle overlaps the area |
| Rectangles.RectangleList.GetRectangle | modules/yup_graphics/primitives/yup_RectangleList.h:188-191 | the rectangle at an index in range, an empty rectangle otherwise |
| Rectangles.RectangleList.Offset | modules/yup_graphics/primitives/yup_RectangleList.h:232-246 | every rectangle is translated in place; count and order are kept |
| LabelEditing.Selection | modules/yup_gui/widgets/yup_Label.cpp:541-547 | the selection runs from the smaller cursor index to the larger |
| LabelEditing.Substring | modules/yup_gui/widgets/yup_Label.cpp:300 | String::substring(start, end) clamps: inside the string it is the slice, and an end not past the start gives "" |
| LabelEditing.SubstringFrom | modules/yup_gui/widgets/yup_Label.cpp:314 | String::substring(start): the suffix from start; the whole string at or below 0, "" past the end |
| LabelEditing.SpliceAsWritten | modules/yup_gui/widgets/yup_Label.cpp:294-301 | insert as written: the selection taken from the cursors unclamped |
| LabelEditing.SpliceFor | modules/yup_gui/widgets/yup_Label.cpp:294-301 | corrected insert: the replaced range lies inside the content, the old text is that range, and the position after is left + text length |
| LabelEditing.SpliceForAgreesInRange | modules/yup_gui/widgets/yup_Label.cpp:294-301 | with both cursors inside the content the corrected splice is the source's |
| LabelEditing.RunSplice | modules/yup_gui/widgets/yup_Label.cpp:303-324 | the callback always leaves both cursors inside the new content |
| LabelEditing.InsertSplices | modules/yup_gui/widgets/yup_Label.cpp:303-324 | forward, the text replaces the selection and both cursors end right after it |
| LabelEditing.InsertUndoRedo | modules/yup_gui/widgets/yup_Label.cpp:303-324 | undo restores the content exactly and reselects the replaced text; redo gives the forward result again |
| LabelEditing.InsertAsWrittenUndoFails | modules/yup_gui/widgets/yup_Label.cpp:294-324 | as written, with both cursors past the end of "a", inserting "x" gives "ax" and undoing leaves "ax" |
| LabelEditing.InsertClearedCursorsAsWritten | modules/yup_gui/widgets/yup_Label.cpp:294-324 | as written, with both cursors cleared (-1) on empty content, typing "x" leaves the carets at 0 before it, so typing "y" next gives "yx", and undoing the first insert leaves "x" |
| LabelEditing.InsertClearedCursorsCorrected | modules/yup_gui/widgets/yup_Label.cpp:294-324 | corrected, with cleared cursors the text goes at the start with both carets after it, the next character follows it, and undo restores the content |
| LabelEditing.BackspaceRemovesCharacter | modules/yup_gui/widgets/yup_Label.cpp:327-333 | backspace on an empty selection removes the character before the caret and leaves both cursors where it was |
| LabelEditing.InsertThenUndoRestores | modules/yup_gui/widgets/yup_Label.cpp:294-324 | through the label's undo manager, an insert recorded into an empty pending group is undone on its own by the next undo, restoring the content |
| LabelEditing.Cursor.constructor | modules/yup_gui/widgets/yup_Label.cpp:404-407 | a new cursor is cleared (index -1) |
| LabelEditing.Cursor.MoveTo | modules/yup_gui/widgets/yup_Label.cpp:506-514 | the index becomes pos clamped into [0, length], the cursor becomes active, and the result says whether it changed |
| LabelEditing.Cursor.MoveToCursor | modules/yup_gui/widgets/yup_Label.cpp:498-504 | the other cursor's index is copied and the result says whether it changed |
| LabelEditing.Cursor.Move | modules/yup_gui/widgets/yup_Label.cpp:516-534 | for an ordinary delta the index becomes index + delta clamped into [0, length], and the result says whether it changed |
| LabelEditing.Cursor.MoveToStart | modules/yup_gui/widgets/yup_Label.cpp:409-412 | the index becomes 0 |
| LabelEditing.Cursor.MoveToEnd | modules/yup_gui/widgets/yup_Label.cpp:414-417 | the index becomes the content length |
| LabelEditing.Cursor.Clear | modules/yup_gui/widgets/yup_Label.cpp:536-539 | the cursor becomes falsy |
| LabelEditing.Cursor.IsActive | modules/yup_gui/widgets/yup_Label.h:136 | operator bool: the cursor is not cleared (index -1) |
| LabelEditing.Label.constructor | modules/yup_gui/widgets/yup_Label.cpp:24-34 | empty content, both cursors cleared, a new undo manager with its timer running |
| LabelEditing.Label.SetText | modules/yup_gui/widgets/yup_Label.cpp:36-58 | the content is replaced and the cursors are left as they are |
| LabelEditing.Label.GetSelection | modules/yup_gui/widgets/yup_Label.cpp:352-356 | with both cursors inside the content, the text between them |
| LabelEditing.Label.Insert | modules/yup_gui/widgets/yup_Label.cpp:294-324 | with the corrected (clamped) splice, performed through the label's manager: the state is the forward splice and the manager records it |
| LabelEditing.Label.DeleteSelection | modules/yup_gui/widgets/yup_Label.cpp:327-333 | on an empty selection the down cursor first moves by delta; then the selection is replaced by "" with the corrected splice, and the manager records that splice |
| LabelEditing.Label.Navigate | modules/yup_gui/widgets/yup_Label.cpp:342-350 | the drag cursor moves by delta; without select the down cursor follows it, otherwise it stays |
| LabelEditing.Label.SelectAll | modules/yup_gui/widgets/yup_Label.cpp:372-375 | the selection becomes [0, length], so the selected text is the whole content |
| LabelEditing.Label.Cut | modules/yup_gui/widgets/yup_Label.cpp:362-365 | the selection goes to the clipboard and is then deleted with the corrected splice, which the manager records |
| LabelEditing.Label.Paste | modules/yup_gui/widgets/yup_Label.cpp:369-371 | the clipboard text is inserted with the corrected splice, which the manager records |
| LabelEditing.Label.UndoOrRedo | modules/yup_gui/widgets/yup_Label.cpp:376-381 | the label's state and manager step as Navigate says |

## Left out

- Fuel: `SendPropertyChange`, `Chain`, `PreOrder`, `ForEach` and `ForEachParent` walk at most a given number of links. The arena does not rule out a cycle of parent links, which `addChild` of an ancestor would create; the source recurses without bound there. `GetRoot` instead requires the handle to reach a root.
- Memory management: reference counting, `WeakReference`, and handle move and copy assignment are not modelled. Nodes are never freed. A destroyed object is an id removed from `handles` or `objects`. Re-pointing an existing handle (`operator=`, move) is not modelled.
- `ChildIterator`, `getChildren`, `getProperties`, XML import and export, the stream functions, the debug dump and the compiled-out comparison tests are not part of this model.
- Adapter members other than the listener pair, `performWithUndo` for property writes, `operator==`, `isEquivalentTo`, `isValid` and `getProperty` are not modelled: child edits, `getChild`, `indexOf`, `getParent` and the destructor. The adapter's listener callbacks to juce listeners are not modelled either.
- TreeAdapter.ValueTreeAdapter.SetProperty and TreeAdapter.ValueTreeAdapter.SetPropertyDeactivated: the bodies of `ScopedDeactivator`'s constructor and destructor are not shown. Deactivation is taken to mean "recording suspended for the call, previous flag restored afterwards".
- Undo.UndoManager.SetSynchronousMode: only the flag is set; the body is not shown. `beginNewTransaction` and `ScopedActionIsolator` are declared only and are not modelled.
- The 500 ms timer is not modelled as time. Each tick is an explicit `FlushCurrentAction` call, and `timerRunning` records whether it would fire. `suspended` is a plain field rather than a thread-local value.
- `Property` default-constructed by `operator[]` on an empty handle is taken to hold a null parent with an empty key. `Property` accessors made from a handle that is later re-pointed are not modelled.
- TreeProperty.Get and TreeProperty.IsDefined require a readable accessor. An accessor bound to an empty handle, which TreeProperty.PropertyIterator.Find returns on an iterator over an empty handle, dereferences a null data pointer when read (yup_ValueTree_impl.h:88-113), so those reads are not modelled.
- `PropertyIterator` iteration through begin/end and the `const` variants are not modelled.
- TreeActions.TreeRun: runs the corrected `Detach` for the undo of addChild and for removeChild, not `DataObject::remove` as written (yup_ValueTree.cpp:317); see Findings.
- TreeActions.AddChildNodes: undo runs the corrected remove; as written the parent keeps listing the child.
- TreeActions.RemoveChildNodes: forward runs the corrected remove; as written the parent keeps listing the child.
- TreeActions.AddChildRoundTrip: "undo restores every node except the binding" holds for the corrected remove only.
- TreeActions.RemoveChildRoundTrip: "the child leaves the list" and the exact undo hold for the corrected remove only.
- TreeForest.Forest.AddChild: undoing it runs the corrected remove.
- TreeForest.Forest.RemoveChild: removes through the corrected remove; as written the child stays in the parent's list.
- Undo.UndoManager.SetEnabled: disabling keeps an empty pending group, where yup_UndoManager.cpp:70 sets it to null; see Findings.
- TreeActions.Detach: the corrected remove takes the child out of the parent's list, where yup_ValueTree.cpp:317 removes it from the child's own list; see Findings.
- Undo managers: a `Forest` has one shared manager, and each node only records whether it is bound to it. The source keeps an `UndoManager*` per node (yup_ValueTree.cpp:134, 297-298), and `add` copies the parent's pointer to the child (yup_ValueTree.cpp:305). So trees with different managers, and a child that moves between them, are not modelled.
- Listener callbacks are entries appended to the event log. A callback that re-enters the tree or changes a listener list while the lists are being walked is not modelled.
- `var` is reduced to Void, integer, boolean and text values; `juce::NamedValueSet` is modelled as an insertion-ordered list of pairs.
- Rectangles: the Rectangle class is not part of this model. `Rect` gives overlap and point containment the half-open meaning and `smallestContainingRectangle` the usual bounding box, on unbounded integers.
- `scale` uses float factors and is not modelled. `getBoundingBox` compares maxima the wrong way round (yup_RectangleList.h:219-220), so no bounding-box property is stated. `contains(x, y, width, height)` forwards four numbers to `Array::contains`, which takes one element; it is not modelled.
- LabelEditing: `juce::String` is not part of this model. `Substring` and `SubstringFrom` give it the clamping behaviour of juce's `substring`.
- LabelEditing.Cursor.Move: the special deltas `LineEnd`, `LineStart`, `NextLine` and `PrevLine` are not modelled; their values and the line functions are not shown. Line numbers, `updateLineNumber`, mouse positioning, glyph positions, painting, the caret blink alpha, keyboard dispatch, listener notification and `rebuildText` are left out. The cursor moves take the parent's content length as a parameter instead of a back-reference.
- LabelEditing.Label.Insert: runs the corrected splice `SpliceFor`, which clamps the selection into the content first; the source's `insert` does not clamp (see Findings). `SpliceAsWritten` models the code as written.
- LabelEditing.SpliceFor: the corrected splice clamps the selection into the content, where yup_Label.cpp:294-301 does not; see Findings.
- LabelEditing.Label.DeleteSelection: deletes through the corrected splice, as Insert does.
- LabelEditing.Label.Cut: deletes through the corrected splice, as Insert does.
- LabelEditing.Label.Paste: inserts through the corrected splice, as Insert does.
- LabelEditing.Label.Cut and LabelEditing.Label.Paste: the clipboard is a return value and a parameter.
- LabelEditing.Cursor.MoveToEnd requires the content length to fit in an `int`, because `moveTo(INT_MAX)` clamps against that length; longer content is not modelled.
- LabelEditing.Label.SelectAll requires the content length to fit in an `int`, as `moveTo(INT_MAX)` clamps against it.

## Findings

| source | as written | input that shows it | evidently intended | confidence | as-written member | corrected member |
|---|---|---|---|---|---|---|
| modules/yup_gui/application/yup_ValueTree.cpp:317 | `DataObject::remove` removes the child from the child's own list; addChild's undo (yup_ValueTree.cpp:250) goes through the same `remove` | parent p with the single child c; `removeChild(c)` clears c's parent but p still lists c; undo re-adds it, so p lists c twice. Likewise undoing `addChild(c)` leaves c listed under p with no parent | remove the child from this node's list, as the undo path re-inserting at the old index assumes | high, not executed | TreeActions.DetachAsWrittenKeepsChild | TreeActions.AttachDetachRoundTrip (TreeRun uses the corrected Detach for both actions) |
| modules/yup_gui/application/yup_UndoManager.cpp:70 | `setEnabled(false)` sets the pending group to nullptr | an enabled manager, `setEnabled(false)`, then `perform`, `undo` or `flushCurrentAction`: each dereferences the null pending group | keep an empty pending group, as the constructor does for a manager without timer | medium, not executed | Undo.DisablingLeavesNoPendingGroup | Undo.UndoManager.SetEnabled |
| modules/yup_gui/widgets/yup_Label.cpp:296-300 | `insert` takes the selection from the cursors without clamping them into the content | content "abc" with both cursors at 3, `setText("a")` (cursors stay at 3), then typing "x": the content becomes "ax", and undo leaves "ax" instead of "a" | clamp the selection into the content first, so that undo restores the text | medium, not executed | LabelEditing.InsertAsWrittenUndoFails | LabelEditing.InsertUndoRedo |
| modules/yup_gui/widgets/yup_Label.cpp:294-301 | `insert` takes the selection from the cursors as they are, and a cleared cursor has index -1 (yup_Label.h:153) | a new label with empty content that was given keyboard focus programmatically, before any mouse press, so both cursors are still cleared; typing "x": left = right = -1, so the content becomes "x" with both carets at 0, before the "x"; typing "y" next gives "yx", and undoing the first insert leaves "x" | clamp the selection into the content, so the text goes where the caret is shown and undo restores the content | medium, not executed | LabelEditing.InsertClearedCursorsAsWritten | LabelEditing.InsertClearedCursorsCorrected |
