# Scythe core, modelled in Dafny

This project models the self-contained logic of Scythe, a C++ graphics and
game framework, and of its Conan packaging recipe. Each core source file is
one Dafny file holding one module:

| source | module |
|---|---|
| conanfile.py | ConanRecipe (conan_recipe.dfy) |
| include/scythe/math/common.h | MathCommon (math_common.dfy) |
| include/scythe/string_id.h | StringId (string_id.dfy) |
| include/scythe/flags.h | FlagSet (flags.dfy) |
| src/common/ref.cpp | RefCounting (ref_count.dfy) |
| include/scythe/singleton.h | Singletons (singleton.dfy) |
| src/memory/stack_linked_list.h | StackLinkedLists (stack_linked_list.dfy) |
| src/memory/pool_allocator.cpp | PoolAllocation (pool_allocator.dfy) |
| src/containers/array.h | DynamicArray (array.dfy) |
| src/containers/forward_list.h | ForwardLists (forward_list.dfy) |
| src/containers/stack.h | LinkedStacks (stack.dfy) |
| src/containers/list.h | DoublyLinkedList (list.dfy) |
| src/containers/lru_cache.h | LruCaches (lru_cache.dfy) |
| src/containers/map.h, src/containers/set.h | RedBlackTrees (rb_tree.dfy), the tree both share |
| src/containers/map.h | Maps (map.dfy) |
| src/containers/set.h | Sets (set.dfy) |
| src/resource_manager.cpp | ResourceManagers (resource_manager.dfy) |
| src/scene/scene_manager.cpp | SceneManagers (scene_manager.dfy) |
| src/math/transform.cpp | Transforms (transform.dfy) |
| src/time/time_manager.cpp | TimeManagers (time_manager.dfy) |
| src/node.cc | Nodes (node.dfy) |
| src/input/keyboard.cpp | Keyboards (keyboard.dfy) |
| src/event/event.cpp | Events (event.dfy) |
| src/ui/board.cpp | Boards (board.dfy) |
| src/ui/console.cpp | Consoles (console.dfy) |
| src/ui/widget.cpp | Widgets (widget.dfy) |
| src/ui/button.cpp | Buttons (button.dfy) |
| src/application/application.cpp | Applications (application.dfy) |
| src/platform/windows/wgl.cpp | Wgl (wgl.dfy) |
| src/image/image.cpp | Images (image.dfy) |
| src/model/mesh.cpp | Meshes (mesh.dfy) |
| src/model/mesh_sphere.cpp | MeshSpheres (mesh_sphere.dfy) |
| src/model/sphere_model.cpp | SphereModels (sphere_model.dfy) |
| src/model/mesh_parts_enumerator.cpp | MeshPartsEnumerators (mesh_parts_enumerator.dfy) |
| src/graphics/vertex_format.cpp | VertexFormats (vertex_format.dfy) |
| src/physics/physics_collision_object.cpp | PhysicsCollisionObjects (physics_collision_object.dfy) |
| src/physics/physics_controller.cpp | PhysicsControllers (physics_controller.dfy) |

The code follows the source's own form. Pure code becomes functions and
lemmas: the recipe's option tables, the string-id CRC, the scalar helpers
and the image format tables. Objects whose fields the source updates become
classes whose methods modify those fields. These include the containers,
the managers, the node and widget hierarchies and the collision-status
cache. Each such method is proved against a specification function of the
old state, and the properties the source promises are lemmas about those
functions. The loops of the source keep their shape and carry their
invariants.

A few conventions hold throughout:
- Pointers are positive numbers and 0 is nullptr.
- Floats are reals.
- Integers are unbounded unless a file says it models a fixed width.
- Foreign calls whose answers the logic depends on are parameters: the
  clock, Bullet's contact tests and activation states, the graphics
  driver's upload result and the address `new[]` returns.

## Model

| member | source | states |
|---|---|---|
| ConanRecipe.ApplyOverrides | conanfile.py:18-27 | the options are exactly shared, fPIC and OpenGL; each one a consumer overrides has the given value and every other one has its default |
| ConanRecipe.ConfiguredOptions | conanfile.py:47-49 | fPIC remains exactly when it was present and the system is not Windows; every other option keeps its value |
| ConanRecipe.ValidationOf | conanfile.py:51-52 | an unset C++ standard is refused as undefined; a set one is valid exactly when it is C++17, 20 or 23, with or without the GNU extensions, so C++98 counts as older than 17; otherwise the error names C++17 and the setting found |
| ConanRecipe.GladRequiredIffOpenGL | conanfile.py:54-58 | glad is a transitive-headers requirement exactly when OpenGL is "True", and it is the only run-time requirement |
| ConanRecipe.OpenGLVariableIffEnabled | conanfile.py:66-73 | the toolchain variable SCYTHE_USE_OPENGL is set (to true) exactly when OpenGL is "True", and no other variable is set |
| ConanRecipe.OpenGLDefineIffEnabled | conanfile.py:85-88 | the package exports the SCYTHE_USE_OPENGL define exactly when OpenGL is "True" |
| ConanRecipe.OutputsIndependentOfOs | conanfile.py:47-89 | only fPIC depends on the system: requirements, toolchain variables and defines are the same on every system |
| ConanRecipe.Recipe.constructor | conanfile.py:17-27 | the recipe starts with the declared options overlaid with the consumer's overrides and no outputs |
| ConanRecipe.Recipe.ConfigOptions | conanfile.py:47-49 | the options become the configured options; nothing else changes |
| ConanRecipe.Recipe.Validate | conanfile.py:51-52 | returns the validation outcome for the recipe's compiler.cppstd setting |
| ConanRecipe.Recipe.Requirements | conanfile.py:54-58 | appends gtest to the test requirements and the run-time requirements of the options to the requirements |
| ConanRecipe.Recipe.BuildRequirements | conanfile.py:60-61 | appends cmake to the tool requirements; nothing else changes |
| ConanRecipe.Recipe.Generate | conanfile.py:66-73 | the toolchain variables become those of the options |
| ConanRecipe.Recipe.PackageInfo | conanfile.py:85-89 | appends the defines of the options and sets the library list to exactly scythe |
| MathCommon.Sign | include/scythe/math/common.h:51-59 | -1 exactly for negative values and +1 otherwise, zero included, so the product with the value is never negative |
| MathCommon.Abs | include/scythe/math/common.h:67-73 | the value or its negation, never negative, equal to sign times value |
| MathCommon.Min | include/scythe/math/common.h:82-87 | one of the two arguments and no larger than either |
| MathCommon.Max | include/scythe/math/common.h:96-101 | one of the two arguments and no smaller than either |
| MathCommon.Clamp | include/scythe/math/common.h:111-121 | the lower bound below the range, the upper bound above it, the value inside it; within the bounds whenever they are ordered |
| MathCommon.Sqr | include/scythe/math/common.h:129-134 | the square, never negative, equal to the square of the absolute value |
| MathCommon.ClampIdempotent | include/scythe/math/common.h:111-121 | clamping twice is clamping once, and clamping is the maximum of the lower bound and the minimum of the value and the upper bound |
| StringId.Crc32 | include/scythe/string_id.h:37-40 | the hash starts from register 0, so the empty string hashes to 0 |
| StringId.StrLen | include/scythe/string_id.h:41-44 | the index of the first zero byte: the byte there is zero and none before it is |
| StringId.ConstexprStringId | include/scythe/string_id.h:52-55 | the identifier is the hash of exactly the bytes before the terminator; the empty string has identifier 0 |
| StringId.HelperOfZero | include/scythe/string_id.h:15-18 | the helper template maps 0 to 0 after any number of steps |
| StringId.TableStartsWithZero | include/scythe/string_id.h:20-30 | the first table entry is 0 |
| StringId.TableEntryOne | include/scythe/string_id.h:15-30 | entry 1 is 0x77073096 and entry 128 is the polynomial 0xEDB88320, as in the reflected CRC-32 table |
| StringId.Crc32ImplAppend | include/scythe/string_id.h:33-36 | hashing a concatenation continues from the hash of its first part |
| StringId.Crc32Snoc | include/scythe/string_id.h:33-40 | appending one byte applies exactly one update step to the hash |
| StringId.StrLenPrefix | include/scythe/string_id.h:41-44 | bytes after the terminator do not change the length |
| StringId.IdIgnoresTail | include/scythe/string_id.h:52-55 | bytes after the terminator do not change the identifier |
| FlagSet.Added | include/scythe/flags.h:48-51 | the bits of the mask become set and every other bit keeps its value |
| FlagSet.Removed | include/scythe/flags.h:52-55 | the bits of the mask become clear and every other bit keeps its value |
| FlagSet.Flags.constructor | include/scythe/flags.h:17 | default flags hold no bit (the member initialiser at line 64) |
| FlagSet.Flags.FromValues | include/scythe/flags.h:18 | the flags hold the given bits |
| FlagSet.Flags.Copy | include/scythe/flags.h:19 | the copy holds the other's bits |
| FlagSet.Flags.Move | include/scythe/flags.h:20 | the new flags take the other's bits and the other is left empty |
| FlagSet.Flags.CopyAssign | include/scythe/flags.h:23-27 | the flags take the other's bits |
| FlagSet.Flags.MoveAssign | include/scythe/flags.h:28-33 | the other is left empty and, unless it is the same object, this one holds its former bits |
| FlagSet.Flags.OrAssign | include/scythe/flags.h:34-37 | the enumerator's bits are added |
| FlagSet.Flags.Or | include/scythe/flags.h:38-42 | ORs the other's bits into this object and returns this object |
| FlagSet.Flags.Clear | include/scythe/flags.h:44-47 | no bit remains |
| FlagSet.Flags.Add | include/scythe/flags.h:48-51 | the new bits are those of Added |
| FlagSet.Flags.Remove | include/scythe/flags.h:52-55 | the new bits are those of Removed |
| RefCounting.AddRefsThenReleases | src/common/ref.cpp:105-120 | driving an object through n AddRef calls and then m Release calls, never more than the references held, leaves the count at its start plus n minus m, and deletes the object exactly when m equals the start plus n |
| RefCounting.Ref.constructor | src/common/ref.cpp:88-94 | a new object has reference count 1 |
| RefCounting.Ref.Copy | src/common/ref.cpp:95-101 | a copy also starts at count 1, whatever the original's count |
| RefCounting.Ref.AddRef | src/common/ref.cpp:105-109 | within the asserted range the count goes up by one |
| RefCounting.Ref.Release | src/common/ref.cpp:110-120 | the count goes down by one and the object is deleted exactly when it reaches 0 |
| RefCounting.Ref.GetRefCount | src/common/ref.cpp:121-124 | returns the current count |
| RefCounting.AddRefThenRelease | src/common/ref.cpp:105-120 | an AddRef followed by a Release leaves the object alive with its old count |
| Singletons.Singleton.GetInstance | include/scythe/singleton.h:19-23 | the first call creates the instance and every later call returns that same instance |
| Singletons.ManagedSingleton.CreateInstance | include/scythe/singleton.h:36-41 | the instance becomes a new object |
| Singletons.ManagedSingleton.DestroyInstance | include/scythe/singleton.h:42-46 | the instance becomes null |
| Singletons.ManagedSingleton.GetInstance | include/scythe/singleton.h:47-50 | returns the current instance, null included |
| Singletons.CountingSingleton.constructor | include/scythe/singleton.h:88-91 | no instance and a zero counter |
| Singletons.CountingSingleton.GetInstance | include/scythe/singleton.h:68-74 | creates the instance only when the counter is 0, otherwise returns the shared one; the 32-bit counter goes up by one and stays consistent with the instance unless it wraps |
| Singletons.CountingSingleton.ReleaseInstance | include/scythe/singleton.h:75-82 | the 32-bit counter goes down by one, wrapping at 0; the instance is dropped exactly when the counter reaches 0 |
| StackLinkedLists.StackLinkedList.constructor | src/memory/stack_linked_list.h:23-26 | the list starts empty with a null head |
| StackLinkedLists.StackLinkedList.Move | src/memory/stack_linked_list.h:31-35 | the new list takes over the other's nodes in order and the other is left empty |
| StackLinkedLists.StackLinkedList.Push | src/memory/stack_linked_list.h:42-46 | the node goes in front of the old nodes and its next pointer is the old head |
| StackLinkedLists.StackLinkedList.Pop | src/memory/stack_linked_list.h:53-59 | an empty list yields null and stays empty; otherwise the first node is returned and the rest remain in order, with no next pointer changed |
| StackLinkedLists.PushThenPop | src/memory/stack_linked_list.h:42-59 | popping right after a push returns the pushed node and restores the list |
| PoolAllocation.BufferChunks | src/memory/pool_allocator.cpp:62-68 | the chunks of a buffer are exactly the base plus each multiple of the chunk size below the chunk count |
| PoolAllocation.NewChunksFit | src/memory/pool_allocator.cpp:64-68 | every chunk of a buffer lies inside that buffer |
| PoolAllocation.DescendingChunks | src/memory/pool_allocator.cpp:64-68 | after the push loop the free list holds the buffer's chunks from the last one down to the first |
| PoolAllocation.DescendingChunksBelow | src/memory/pool_allocator.cpp:64-68 | every chunk pushed so far lies below the next one, so no chunk is pushed twice |
| PoolAllocation.DescendingChunksElements | src/memory/pool_allocator.cpp:64-68 | the new free list holds exactly the buffer's chunks |
| PoolAllocation.PoolAllocator.constructor | src/memory/pool_allocator.cpp:7-15 | a new allocator has no buffer, chunk size 0 and no block handed out |
| PoolAllocation.PoolAllocator.Allocate | src/memory/pool_allocator.cpp:46-76 | with a free node, returns the address after its header and removes it from the free list; with none, first carves a new buffer at the heap's address and returns the block of its last chunk; the block returned was not live and becomes live (with zero chunks per buffer, the address of a null node) |
| PoolAllocation.PoolAllocator.PopFree | src/memory/pool_allocator.cpp:49 | an empty free list yields null; otherwise its head, which becomes live |
| PoolAllocation.PoolAllocator.AddPool | src/memory/pool_allocator.cpp:50-68 | the first buffer fixes the chunk size; the new buffer's chunks all become free, the last one at the head |
| PoolAllocation.PoolAllocator.PushBufferChunks | src/memory/pool_allocator.cpp:64-68 | the loop leaves exactly the buffer's chunks on the free list, in descending order |
| PoolAllocation.PoolAllocator.Free | src/memory/pool_allocator.cpp:77-84 | the block's node goes back on top of the free list and stops being live |
| PoolAllocation.PoolAllocator.AllocateBuffer | src/memory/pool_allocator.cpp:85-91 | the new buffer is appended to the buffer list |
| PoolAllocation.PoolAllocator.NumChunks | src/memory/pool_allocator.cpp:92-95 | returns the chunk count per buffer |
| PoolAllocation.FreedBlockIsReused | src/memory/pool_allocator.cpp:46-84 | a freed block is the next one handed out, and live blocks are distinct |
| DynamicArray.ReserveAsWritten | src/containers/array.h:296-329 | as written, reserve records its argument as the capacity even below the current one and keeps the size; its element move overruns the new buffer exactly when it grows a non-empty buffer to less than the size |
| DynamicArray.ReserveShrinksBelowSize | src/containers/array.h:296-329 | as written, reserving 2 in an array of six elements records a capacity below the size |
| DynamicArray.ReserveZeroDropsElements | src/containers/array.h:298-305 | as written, reserve(0) frees the buffer of a non-empty array and keeps its size |
| DynamicArray.ReserveAfterShrinkOverflows | src/containers/array.h:306-321 | as written, after that shrink a reserve(4) moves six elements into a buffer of four |
| DynamicArray.ReserveIntended | src/containers/array.h:296-329 | the intended reserve raises the capacity to the argument when it is smaller and otherwise changes nothing, so the size never exceeds the capacity |
| DynamicArray.ReserveIntendedMonotone | src/containers/array.h:296-329 | the intended reserve never lowers the capacity, and two reserves are one reserve of the larger amount |
| DynamicArray.ReserveReadsPast | src/containers/array.h:306-316 | the element move of reserve as written reads past the old buffer only when the size exceeds that buffer's length |
| DynamicArray.ResizeAsWritten | src/containers/array.h:336-354 | as written, resize leaves the new size, and its growth reads past the old buffer exactly when the array grows beyond a non-empty buffer that is below the reserved amount |
| DynamicArray.PushBackOnFullReadsPast | src/containers/array.h:336-378 | as written, push_back onto a full non-empty buffer reads one element past its end |
| DynamicArray.Array.constructor | src/containers/array.h:97-104 | a new array has no buffer and no element |
| DynamicArray.Array.Empty | src/containers/array.h:206-209 | true exactly when there is no element |
| DynamicArray.Array.Size | src/containers/array.h:216-219 | the number of elements |
| DynamicArray.Array.Capacity | src/containers/array.h:226-229 | never below the number of elements |
| DynamicArray.Array.At | src/containers/array.h:195-199 | the element at an index the assertion admits |
| DynamicArray.Array.Front | src/containers/array.h:246-249 | the first element |
| DynamicArray.Array.Back | src/containers/array.h:256-259 | the last element |
| DynamicArray.Array.Clear | src/containers/array.h:284-289 | no element remains and the buffer is kept |
| DynamicArray.Array.Reserve | src/containers/array.h:296-329 | the elements are unchanged and the capacity is that of the intended reserve; a growth moves the elements into a new buffer |
| DynamicArray.Array.Resize | src/containers/array.h:336-354 | shrinking keeps the first elements; growing keeps the old ones, appends value-initialised ones and reserves a quarter more than the new size |
| DynamicArray.Array.PushBack | src/containers/array.h:362-378 | the value is appended |
| DynamicArray.Array.PopBack | src/containers/array.h:383-387 | the last element is removed; on an empty array nothing happens |
| ForwardLists.ForwardList.constructor | src/containers/forward_list.h:33-39 | a new list is empty and owns its allocator |
| ForwardLists.ForwardList.WithAllocator | src/containers/forward_list.h:46-52 | a list on a caller's allocator is empty and does not own it |
| ForwardLists.ForwardList.Copy | src/containers/forward_list.h:60-63 | the copy has the other's elements in the same order and its allocator ownership |
| ForwardLists.ForwardList.Front | src/containers/forward_list.h:112-116 | the first element of a list the assertion admits |
| ForwardLists.ForwardList.Empty | src/containers/forward_list.h:123-127 | true exactly when there is no element |
| ForwardLists.ForwardList.Size | src/containers/forward_list.h:133-147 | the number of elements (size and length alike) |
| ForwardLists.ForwardList.PushFront | src/containers/forward_list.h:167-188 | the element goes in front of the others |
| ForwardLists.ForwardList.PopFront | src/containers/forward_list.h:194-203 | the first element is removed; an empty list stays empty |
| ForwardLists.ForwardList.Clear | src/containers/forward_list.h:152-159 | the loop of front pops leaves no element |
| ForwardLists.ForwardList.Swap | src/containers/forward_list.h:210-216 | the two lists exchange their elements and allocator ownership |
| ForwardLists.ForwardList.SetByCopy | src/containers/forward_list.h:228-261 | copying another list yields its elements in the same order; copying the list into itself leaves it empty |
| ForwardLists.ForwardList.CopyAssignAsWritten | src/containers/forward_list.h:90-94 | as written, copy assignment copies another list but empties a list assigned to itself |
| ForwardLists.ForwardList.CopyAssign | src/containers/forward_list.h:90-94 | the intended copy assignment leaves the list equal to the other's old elements, itself included |
| ForwardLists.ForwardList.SetByMove | src/containers/forward_list.h:262-275 | the list takes over the other's elements and allocator ownership, and the other is left empty without an allocator |
| ForwardLists.SelfCopyAssignEmpties | src/containers/forward_list.h:90-94 | assigning a one-element list to itself, as written, leaves it empty |
| LinkedStacks.Stack.constructor | src/containers/stack.h:33-39 | a new stack is empty and owns its allocator |
| LinkedStacks.Stack.WithAllocator | src/containers/stack.h:46-52 | a stack on a caller's allocator is empty and does not own it |
| LinkedStacks.Stack.Copy | src/containers/stack.h:60-67 | the copy has the other's elements in the same order and its allocator ownership |
| LinkedStacks.Stack.Top | src/containers/stack.h:118-122 | the top element of a stack the assertion admits |
| LinkedStacks.Stack.Empty | src/containers/stack.h:129-132 | true exactly when there is no element |
| LinkedStacks.Stack.Size | src/containers/stack.h:139-142 | the number of elements |
| LinkedStacks.Stack.Push | src/containers/stack.h:163-184 | the element goes on top |
| LinkedStacks.Stack.Pop | src/containers/stack.h:190-199 | the top element is removed; an empty stack stays empty |
| LinkedStacks.Stack.Clear | src/containers/stack.h:148-155 | the loop of pops leaves no element |
| LinkedStacks.Stack.Swap | src/containers/stack.h:206-212 | the two stacks exchange their elements and allocator ownership |
| LinkedStacks.Stack.SetByCopy | src/containers/stack.h:230-264 | copying another stack yields its elements in the same order; copying a stack into itself clears it first and so leaves it empty |
| LinkedStacks.Stack.SetByMove | src/containers/stack.h:265-278 | the stack takes over the other's elements and allocator ownership, and the other is left empty without an allocator |
| LinkedStacks.PushThenPop | src/containers/stack.h:163-199 | a push followed by a pop returns the pushed element and restores the stack |
| DoublyLinkedList.RemovedIf | src/containers/list.h:486-500 | the elements that fail the predicate, in order, never more than the list had |
| DoublyLinkedList.RemovedIfMembers | src/containers/list.h:486-500 | an element survives remove_if exactly when it was in the list and fails the predicate |
| DoublyLinkedList.RemovedIfAppend | src/containers/list.h:486-500 | removing from a concatenation removes from each part |
| DoublyLinkedList.RemovedIfIdempotent | src/containers/list.h:486-500 | a second remove_if with the same predicate removes nothing more |
| DoublyLinkedList.FirstIndex | src/containers/list.h:510-523 | the position of the first element equal to the value |
| DoublyLinkedList.Inserted | src/containers/list.h:423-443 | the value sits at the position, the elements before it are unchanged and those after it shift by one |
| DoublyLinkedList.Erased | src/containers/list.h:450-468 | the end position removes nothing; any other removes exactly the element there and closes the gap |
| DoublyLinkedList.EraseAfterInsert | src/containers/list.h:423-468 | erasing at the position of an insert restores the list |
| DoublyLinkedList.List.constructor | src/containers/list.h:118-125 | a new list is empty |
| DoublyLinkedList.List.Begin | src/containers/list.h:207-210 | the first position, which is the end exactly when the list is empty |
| DoublyLinkedList.List.End | src/containers/list.h:217-220 | the position past the last element |
| DoublyLinkedList.List.Front | src/containers/list.h:227-231 | the first element of a list the assertion admits |
| DoublyLinkedList.List.Back | src/containers/list.h:238-242 | the last element of a list the assertion admits |
| DoublyLinkedList.List.Empty | src/containers/list.h:249-252 | true exactly when there is no element |
| DoublyLinkedList.List.Size | src/containers/list.h:259-272 | the number of elements (size and length alike) |
| DoublyLinkedList.List.PushFront | src/containers/list.h:293-332 | the element goes first |
| DoublyLinkedList.List.PushBack | src/containers/list.h:333-364 | the element goes last |
| DoublyLinkedList.List.PopFront | src/containers/list.h:370-383 | the first element is removed; an empty list stays empty |
| DoublyLinkedList.List.PopBack | src/containers/list.h:388-401 | the last element is removed; an empty list stays empty |
| DoublyLinkedList.List.Insert | src/containers/list.h:423-443 | the value is placed before the position; at the end it is appended |
| DoublyLinkedList.List.Erase | src/containers/list.h:450-468 | removes the element at the position and returns the position of its successor; the end changes nothing |
| DoublyLinkedList.List.RemoveIf | src/containers/list.h:486-500 | the elements that satisfy the predicate are erased and the others keep their order |
| DoublyLinkedList.List.Remove | src/containers/list.h:475-479 | every element equal to the value is erased and no such element remains |
| DoublyLinkedList.List.Find | src/containers/list.h:510-523 | the position of the first equal element, or the end exactly when there is none |
| DoublyLinkedList.List.Clear | src/containers/list.h:278-285 | the loop of front pops leaves no element |
| LruCaches.Splice | src/containers/lru_cache.h:27 | the chosen entry moves to the front and the others keep their order |
| LruCaches.Evicted | src/containers/lru_cache.h:35-41 | beyond the maximum size exactly the last entry goes; otherwise nothing changes |
| LruCaches.IndexOf | src/containers/lru_cache.h:24 | the position of the first entry with the key |
| LruCaches.DistinctCount | src/containers/lru_cache.h:35 | with distinct keys the map's size is the list's length |
| LruCaches.SpliceDistinct | src/containers/lru_cache.h:27 | a splice keeps the keys and their distinctness |
| LruCaches.PushDistinct | src/containers/lru_cache.h:31-32 | pushing a key that is absent keeps the keys distinct and adds just it |
| LruCaches.DropLastDistinct | src/containers/lru_cache.h:37-40 | dropping the last entry removes just its key |
| LruCaches.SetPutResult | src/containers/lru_cache.h:92-112 | after a put the set holds at most the maximum number of values, the value put first |
| LruCaches.SetPutKeepsInvariant | src/containers/lru_cache.h:92-112 | a put keeps the values distinct and brings in no value but the one put |
| LruCaches.SetPutPresentMovesToFront | src/containers/lru_cache.h:94-98 | putting a present value only moves it to the front |
| LruCaches.Keys | src/containers/lru_cache.h:13-15 | the keys of the entries, in recency order |
| LruCaches.PutResult | src/containers/lru_cache.h:22-42 | after a put the cache holds at most the maximum number of entries, the key put first |
| LruCaches.KeysCommute | src/containers/lru_cache.h:27-40 | splicing, pushing and truncating the entries does the same to their keys |
| LruCaches.PutKeepsInvariant | src/containers/lru_cache.h:22-42 | a put keeps the keys distinct, brings in no key but the one put, and moves the keys as the set variant moves values |
| LruCaches.PutPresentKeepsValue | src/containers/lru_cache.h:24-28 | putting a present key keeps its stored value and the number of entries |
| LruCaches.PutNewEvictsLeastRecent | src/containers/lru_cache.h:29-41 | putting a new key into a full cache evicts exactly the least recently used entry |
| LruCaches.LruCache.constructor | src/containers/lru_cache.h:17-20 | a new cache is empty with the given maximum size |
| LruCaches.LruCache.Put | src/containers/lru_cache.h:22-42 | the entries become those of PutResult and the key map stays in step with the list |
| LruCaches.LruCache.Touch | src/containers/lru_cache.h:24-33 | a present key's entry moves to the front keeping its old value, a new key is pushed in front; keys stay distinct and the key set follows the list |
| LruCaches.LruCache.EvictOverflow | src/containers/lru_cache.h:35-41 | beyond maxSize entries exactly the last, least recently used entry and its key are dropped; otherwise nothing changes |
| LruCaches.DropLastKeys | src/containers/lru_cache.h:37-40 | dropping the last entry of a list with distinct keys removes exactly its key and keeps the rest distinct |
| LruCaches.LruCache.Get | src/containers/lru_cache.h:44-57 | a hit exactly when the key is present: it moves to the front and its value is returned; a miss changes nothing and leaves the caller's value |
| LruCaches.LruCache.Clear | src/containers/lru_cache.h:59-63 | no entry remains |
| LruCaches.LruCache.Exists | src/containers/lru_cache.h:65-68 | true exactly when some entry has the key |
| LruCaches.LruCache.Size | src/containers/lru_cache.h:70-73 | the map's size is the number of entries and never exceeds the maximum |
| LruCaches.LruCacheSet.constructor | src/containers/lru_cache.h:87-90 | a new set is empty with the given maximum size |
| LruCaches.LruCacheSet.Put | src/containers/lru_cache.h:92-112 | the values become those of SetPutResult and the member set stays in step with the list |
| LruCaches.LruCacheSet.Clear | src/containers/lru_cache.h:114-118 | no value remains |
| LruCaches.LruCacheSet.Size | src/containers/lru_cache.h:120-123 | the set's size is the number of values and never exceeds the maximum |
| RedBlackTrees.ElementKeys | src/containers/map.h:516-530 | every stored pair's key is a key of the tree |
| RedBlackTrees.UniqueValues | src/containers/map.h:516-530 | in a search tree each key carries a single value, so a search finds the only one |
| RedBlackTrees.ValueAt | src/containers/map.h:516-530 | the value the search finds under a present key is a stored pair with that key |
| RedBlackTrees.SearchStep | src/containers/map.h:516-530 | one search step: a key below a node's can only be in its left subtree, one above it only in its right subtree |
| RedBlackTrees.Min | src/containers/map.h:282-294 | the leftmost key is a key of the tree and no key is smaller |
| RedBlackTrees.MaxKey | src/containers/map.h:56-76 | the rightmost key is a key of the tree and no key is larger |
| RedBlackTrees.Succ | src/containers/map.h:56-76 | the iterator step yields the smallest key above the current one, or end() when there is none |
| RedBlackTrees.Begin | src/containers/map.h:282-294 | begin() is end() exactly for an empty tree, and otherwise the smallest key |
| RedBlackTrees.InOrderSorted | src/containers/map.h:56-76 | the in-order walk lists every key of a search tree once, in ascending order |
| RedBlackTrees.SortedJoin | src/containers/map.h:56-76 | a node between two ascending walks of smaller and larger keys gives an ascending walk |
| RedBlackTrees.BeginIsFirst | src/containers/map.h:282-294 | begin() is the first key of the in-order walk, or end() when there is none |
| RedBlackTrees.NextIsInOrder | src/containers/map.h:56-76 | from each key the iterator step reaches the next key of the in-order walk, and end() after the last, so iteration visits the keys in ascending order |
| RedBlackTrees.RotateLeft | src/containers/map.h:471-492 | a left rotation keeps the in-order walk, the keys and the stored pairs |
| RedBlackTrees.RotateRight | src/containers/map.h:494-514 | a right rotation keeps the in-order walk, the keys and the stored pairs |
| RedBlackTrees.RotateLeftBst | src/containers/map.h:471-492 | a left rotation keeps the search order |
| RedBlackTrees.RotateRightBst | src/containers/map.h:494-514 | a right rotation keeps the search order |
| RedBlackTrees.RotationsInverse | src/containers/map.h:471-514 | a right rotation undoes a left rotation |
| RedBlackTrees.Paint | src/containers/map.h:567-611 | recolouring a node keeps its subtrees, keys, pairs and search order |
| RedBlackTrees.FixUp | src/containers/map.h:563-611 | one pass of the insertion fix-up keeps the keys, the pairs and the in-order walk |
| RedBlackTrees.FixUpBst | src/containers/map.h:563-611 | one pass of the insertion fix-up keeps the search order |
| RedBlackTrees.Ins | src/containers/map.h:532-611 | inserting a new key below the root adds exactly that key and its pair |
| RedBlackTrees.InsBst | src/containers/map.h:532-555 | the descent by the key order places the new key where the search order holds |
| RedBlackTrees.Insert | src/containers/map.h:557-615 | insertion keeps the search order, adds exactly the new key and pair, and leaves a black root |
| RedBlackTrees.FixUpRedBlack | src/containers/map.h:563-611 | a fix-up at a black node with at most one violating child yields a sound subtree one black level higher |
| RedBlackTrees.InsRedBlack | src/containers/map.h:532-611 | inserting below the root keeps every path's black count, and the result violates the red rule at most at its root |
| RedBlackTrees.InsertRedBlack | src/containers/map.h:557-615 | after every insertion the tree is again a red-black tree with a black root |
| RedBlackTrees.DeleteMin | src/containers/map.h:692-711 | removing the smallest key (the successor spliced out) keeps the search order and removes exactly that key and its pair |
| RedBlackTrees.RemoveRoot | src/containers/map.h:713-755 | unlinking a node replaces it by its only child or by its successor, keeping the search order and removing exactly that node's key and pair |
| RedBlackTrees.Delete | src/containers/map.h:713-755 | deletion keeps the search order and removes exactly the key and its value; an absent key changes nothing |
| Maps.Map.constructor | src/containers/map.h:135-150 | a new map is empty |
| Maps.Map.Empty | src/containers/map.h:251-254 | true exactly when the map has no key |
| Maps.Map.Size | src/containers/map.h:261-264 | the counter equals the number of keys |
| Maps.Map.Get | src/containers/map.h:110-124 | dereferencing an iterator yields the pair stored with its key |
| Maps.Map.Find | src/containers/map.h:412-419 | end() exactly when the key is absent, otherwise an iterator to the key |
| Maps.Map.TrustedInsert | src/containers/map.h:372-411 | a key the caller guarantees absent is added with its value and the size goes up by one |
| Maps.Map.Insert | src/containers/map.h:318-361 | true exactly when the key was absent, in which case the pair is added; a present key leaves the map unchanged; either way the iterator points at the key |
| Maps.Map.Index | src/containers/map.h:230-244 | returns the value stored with a present key without changing the map; an absent key is first inserted with the value-initialised default |
| Maps.Map.Erase | src/containers/map.h:426-430 | removes exactly the element the iterator points at |
| Maps.Map.EraseKeyAsWritten | src/containers/map.h:439-453 | as written, erasing a present key steps the loop's iterator from the node just freed (exactly when the key was present) |
| Maps.Map.EraseKey | src/containers/map.h:439-453 | the intended erase by key removes the key with exactly its element (key and stored value) and returns 1 if it was present, and otherwise changes nothing and returns 0 |
| Maps.Map.Clear | src/containers/map.h:270-275 | no element remains and the size is 0 |
| Maps.EraseKeyReadsFreedNode | src/containers/map.h:439-453 | erasing the only key of a one-element map, as written, reads the freed node |
| Sets.Set.constructor | src/containers/set.h:133-142 | a new set is empty |
| Sets.Set.Empty | src/containers/set.h:226-229 | true exactly when the set has no element |
| Sets.Set.Size | src/containers/set.h:236-239 | the counter equals the number of elements |
| Sets.Set.Find | src/containers/set.h:387-394 | end() exactly when the value is absent, otherwise an iterator to it |
| Sets.Set.TrustedInsert | src/containers/set.h:347-386 | a value the caller guarantees absent is added and the size goes up by one |
| Sets.Set.Insert | src/containers/set.h:293-336 | true exactly when the value was absent; the value is then an element and the size counts only a new one |
| Sets.Set.Erase | src/containers/set.h:401-405 | removes exactly the element the iterator points at |
| Sets.Set.EraseValueAsWritten | src/containers/set.h:414-428 | as written, erasing a present value steps the loop's iterator from the node just freed (exactly when the value was present) |
| Sets.Set.EraseValue | src/containers/set.h:414-428 | the intended erase by value removes the value and returns 1 if it was present, and 0 otherwise |
| Sets.Set.Clear | src/containers/set.h:245-250 | no element remains and the size is 0 |
| Sets.EraseValueReadsFreedNode | src/containers/set.h:414-428 | erasing the only element of a one-element set, as written, reads the freed node |
| ResourceManagers.Processed | src/resource_manager.cpp:110-125 | one entry after a pass: an unrequested loaded resource is unloaded, a requested unloaded one takes what loading gave, anything else (a negative counter included) is left alone; after a successful load the entry needs no more work |
| ResourceManagers.Without | src/resource_manager.cpp:55 | the ids left after erasing an entry are exactly the others |
| ResourceManagers.WithoutDistinct | src/resource_manager.cpp:55 | erasing an entry keeps the ids distinct |
| ResourceManagers.AppendDistinct | src/resource_manager.cpp:36-38 | registering a new id keeps the ids distinct |
| ResourceManagers.WithoutListed | src/resource_manager.cpp:55 | every id left after erasing an entry is another registered id |
| ResourceManagers.FirstPending | src/resource_manager.cpp:129-146 | the first entry in iteration order that needs loading or unloading; none before it does |
| ResourceManagers.CountPending | src/resource_manager.cpp:149-165 | the number of entries that need work, never above the number of entries |
| ResourceManagers.CountPendingZero | src/resource_manager.cpp:149-165 | the count is zero exactly when no entry needs work |
| ResourceManagers.CountPendingUpdate | src/resource_manager.cpp:149-165 | replacing one entry changes the count by that entry's difference alone |
| ResourceManagers.CountPendingOther | src/resource_manager.cpp:149-165 | the count does not see an entry that is not registered |
| ResourceManagers.PerformAll | src/resource_manager.cpp:108-126 | a whole pass processes every entry once and keeps the ids |
| ResourceManagers.Unloaded | src/resource_manager.cpp:21-33 | clean-up drops every resource and keeps every entry's counter and name |
| ResourceManagers.PerformSettles | src/resource_manager.cpp:108-126 | when every load succeeds, one pass leaves nothing to process |
| ResourceManagers.StepReducesPending | src/resource_manager.cpp:127-148 | a step that loads successfully leaves one entry fewer to process |
| ResourceManagers.ResourceManager.constructor | src/resource_manager.cpp:7-11 | no entry and the id counter at 0 |
| ResourceManagers.ResourceManager.RegisterResource | src/resource_manager.cpp:34-46 | returns the post-incremented counter as a new id whose entry has counter 0, the name and no resource |
| ResourceManagers.ResourceManager.UnregisterResourceAsWritten | src/resource_manager.cpp:47-56 | as written, the iterator find returned is erased even when it is end(), exactly when the id is unknown |
| ResourceManagers.ResourceManager.UnregisterResource | src/resource_manager.cpp:47-56 | the intended unregister erases the entry when it exists and otherwise changes nothing |
| ResourceManagers.ResourceManager.GetResourceIdByName | src/resource_manager.cpp:57-67 | -1 exactly when no entry has the name; otherwise an id registered under it |
| ResourceManagers.ResourceManager.GetResource | src/resource_manager.cpp:68-81 | the entry's resource, or none for an unknown id |
| ResourceManagers.ResourceManager.RequestLoad | src/resource_manager.cpp:82-94 | the id's counter goes up by one; an unknown id changes nothing |
| ResourceManagers.ResourceManager.RequestUnload | src/resource_manager.cpp:95-107 | the id's counter goes down by one; an unknown id changes nothing |
| ResourceManagers.ResourceManager.Perform | src/resource_manager.cpp:108-126 | the entries become those of a whole pass |
| ResourceManagers.ResourceManager.PerformStep | src/resource_manager.cpp:127-148 | true, changing nothing, exactly when no entry needs work; otherwise only the first pending entry is processed |
| ResourceManagers.ResourceManager.GetResourcesCountToProcess | src/resource_manager.cpp:149-165 | returns the number of entries that need work |
| ResourceManagers.ResourceManager.CleanUp | src/resource_manager.cpp:21-33 | every resource is dropped and nothing else changes |
| ResourceManagers.UnregisterUnknownErasesEnd | src/resource_manager.cpp:47-56 | as written, unregistering an id that was never registered erases end() |
| SceneManagers.Driven | src/scene/scene_manager.cpp:31-56 | Update, UpdatePhysics and Render drive the loading scene when there is one and the current scene otherwise |
| SceneManagers.Rendered | src/scene/scene_manager.cpp:46-56 | a render call adds one to the render count only while finalization is on, and changes nothing else of the bookkeeping |
| SceneManagers.TransitionCompletion | src/scene/scene_manager.cpp:186-217 | a finished transition makes the next scene current and forgets it, a deferred one also its loading scene and listener, and only after the required renders; without a transition, or with the unimplemented asynchronous kind, nothing happens |
| SceneManagers.ImmediateFinishesAfterRenders | src/scene/scene_manager.cpp:71-119 | an immediate transition step finishes exactly when finalization is on and at least two renders were counted, and then resets the bookkeeping |
| SceneManagers.DeferredPhasesInOrder | src/scene/scene_manager.cpp:120-185 | the deferred phases run 0, 1, 2, 3, phase 1 waits exactly until the resource step is done, and phase 3 finishes only after the required renders, back at idle |
| SceneManagers.ImmediateTakesTwoRenders | src/scene/scene_manager.cpp:7-9 | from idle, an immediate transition finishes on the third update call with two renders between |
| SceneManagers.DeferredTakesFourPhases | src/scene/scene_manager.cpp:120-185 | from idle with the resources ready, a deferred transition is unfinished after four phase calls and finishes on the fifth after two renders |
| SceneManagers.RunKeepsPhase | src/scene/scene_manager.cpp:120-185 | any run of render and update calls keeps the deferred phase within 0..3 |
| SceneManagers.RenderCountCountsFinalizingRenders | src/scene/scene_manager.cpp:46-56 | within one transition the render count is exactly the number of renders made while finalization was on |
| SceneManagers.FinishesAfterTwoFinalizingRenders | src/scene/scene_manager.cpp:7-9 | a transition started from idle finishes only after at least two renders made during its finalization |
| SceneManagers.SceneManager.constructor | src/scene/scene_manager.cpp:13-24 | no scenes, no listener, no transition, phase and render count 0 |
| SceneManagers.SceneManager.Update | src/scene/scene_manager.cpp:31-38 | steps the transition, then updates the loading scene if any, else the current one |
| SceneManagers.SceneManager.UpdatePhysics | src/scene/scene_manager.cpp:39-45 | updates the physics of the loading scene if any, else of the current one, and changes nothing else |
| SceneManagers.SceneManager.Render | src/scene/scene_manager.cpp:46-56 | counts the render during finalization and renders the loading scene if any, else the current one |
| SceneManagers.SceneManager.RequestImmediateTransition | src/scene/scene_manager.cpp:57-63 | records the next scene, drops loading scene and listener, and selects the immediate kind |
| SceneManagers.SceneManager.RequestDeferredTransition | src/scene/scene_manager.cpp:64-70 | records the next scene, loading scene and listener, and selects the deferred kind |
| SceneManagers.SceneManager.ImmediateTransition | src/scene/scene_manager.cpp:71-119 | outside finalization: requests unload and load of the chains, performs the resources, unloads and loads them, drops the current scene; during it: finishes once two renders were counted |
| SceneManagers.SceneManager.DeferredTransition | src/scene/scene_manager.cpp:120-185 | one phase of the deferred transition with the effects of that phase: phase 0 requests the unloads and loads and asks for the count, phase 1 performs one resource step and reports it to the listener while unfinished, phase 2 unloads and loads and drops the current scene, phase 3 notifies the listener when it finishes |
| SceneManagers.SceneManager.UpdateTransition | src/scene/scene_manager.cpp:186-217 | the scenes, bookkeeping and effects become those of one transition step |
| Transforms.IsDirtyBits | src/math/transform.cpp:927-931 | a transform is dirty for a set of bits exactly when every one of them is set |
| Transforms.IsDirtyUnion | src/math/transform.cpp:927-931 | dirty for the union of two bit sets exactly when dirty for each |
| Transforms.MatrixCleared | src/math/transform.cpp:91-118 | rebuilding the matrix clears the translation, rotation and scale bits and keeps DIRTY_NOTIFY and every other bit |
| Transforms.ChangeQueue.constructor | src/math/transform.cpp:8-9 | the suspend counter starts at 0 with no queued transform |
| Transforms.ChangeQueue.IsTransformChangedSuspended | src/math/transform.cpp:81-85 | suspended exactly when the counter is positive |
| Transforms.ChangeQueue.SuspendTransformChanged | src/math/transform.cpp:44-48 | the counter goes up by one and the queue is kept |
| Transforms.ChangeQueue.ResumeTransformChanged | src/math/transform.cpp:49-80 | nothing at 0; from 1, every queued transform is notified once, loses DIRTY_NOTIFY and the queue empties; above 1, only a decrement; queued transforms stay distinct and marked |
| Transforms.Transform.constructor | src/math/transform.cpp:11-17 | unit scale, identity rotation, zero translation, no dirty bits and no listeners |
| Transforms.Transform.IsDirty | src/math/transform.cpp:927-931 | every given bit is set in the transform's dirty bits |
| Transforms.Transform.TransformChanged | src/math/transform.cpp:969-983 | one notification round over the listeners, changing nothing else |
| Transforms.Transform.SuspendTransformChange | src/math/transform.cpp:932-938 | a transform not yet marked gets DIRTY_NOTIFY and is queued once at the end |
| Transforms.Transform.Dirty | src/math/transform.cpp:911-926 | the bits are ORed in; while suspended the transform is queued with DIRTY_NOTIFY unless already marked, otherwise the listeners are notified once |
| Transforms.Transform.GetMatrix | src/math/transform.cpp:91-118 | the dirty bits become those with the matrix bits cleared; nothing else changes |
| Transforms.Transform.SetUniformScale | src/math/transform.cpp:456-464 | a static transform is left alone; otherwise the scale becomes (s, s, s) and the scale bit is dirtied |
| Transforms.Transform.SetScaleAsWritten | src/math/transform.cpp:474-479 | as written, the vector overload sets the scale and dirties even a static transform |
| Transforms.Transform.SetScale | src/math/transform.cpp:465-473 | the intended vector overload leaves a static transform alone, like the other setters |
| Transforms.Transform.SetRotation | src/math/transform.cpp:507-515 | a static transform is left alone; otherwise the rotation is set and the rotation bit dirtied |
| Transforms.Transform.SetTranslation | src/math/transform.cpp:545-553 | a static transform is left alone; otherwise the translation is set and the translation bit dirtied |
| Transforms.Transform.Translate | src/math/transform.cpp:590-600 | a static transform is left alone; otherwise the translation moves by the offsets and the translation bit is dirtied |
| Transforms.Transform.SetIdentity | src/math/transform.cpp:445-455 | a static transform is left alone; otherwise unit scale, identity rotation, zero translation and all three matrix bits dirtied |
| Transforms.Transform.AddListener | src/math/transform.cpp:939-951 | the listener and cookie are appended at the end |
| Transforms.Transform.RemoveListener | src/math/transform.cpp:952-968 | only the first entry for the listener is removed; an absent listener changes nothing |
| Transforms.StaticTransformTakesScale | src/math/transform.cpp:474-479 | as written, a static transform given scale (2, 2, 2) through the vector overload takes it |
| TimeManagers.RemoveFirst | src/time/time_manager.cpp:56-76 | unlinking a timer not on the list changes nothing; otherwise the list loses one entry and gains none |
| TimeManagers.RemoveFirstDistinct | src/time/time_manager.cpp:56-76 | in a list without duplicates, unlinking the timer at position i leaves the list without position i, still without duplicates and without that timer |
| TimeManagers.FpsStep | src/time/time_manager.cpp:34-45 | below one second the frame count grows by one and the time by the frame time; from one second on the rate times the elapsed time equals the count, and both counters restart at 0 |
| TimeManagers.SumNonNegative | src/time/time_manager.cpp:34-45 | a run of non-negative frame times has a non-negative total |
| TimeManagers.FpsRunCounts | src/time/time_manager.cpp:34-45 | over frames that all start below one second, the count grows by the number of frames, the time by their total and the published rate is kept |
| TimeManagers.TimeManager.constructor | src/time/time_manager.cpp:93-104 | no timers, a fixed frame time of 1/60 and every clock value at 0 |
| TimeManagers.TimeManager.SetFixedFrameTime | src/time/time_manager.cpp:9-12 | sets the fixed frame time and nothing else |
| TimeManagers.TimeManager.Update | src/time/time_manager.cpp:13-46 | the frame time is the time since the previous update, each enabled timer advances by it, disabled timers keep their time, and the frame-rate counter takes one step |
| TimeManagers.TimeManager.AddTimer | src/time/time_manager.cpp:47-55 | a new timer with the interval is linked in at the head |
| TimeManagers.TimeManager.RemoveTimer | src/time/time_manager.cpp:56-76 | nullptr and an unlisted timer change nothing; otherwise that timer alone is unlinked and the rest keep their order |
| Nodes.Unlinked | src/node.cc:144-173 | the chain after unlinking holds exactly the other nodes and is no longer |
| Nodes.UnlinkedAt | src/node.cc:144-173 | unlinking the node at position i of a chain without duplicates keeps the others in order, still without duplicates |
| Nodes.AncestryKnown | src/node.cc:200-208 | every node of an ancestry is a known node of no greater rank, the node itself included |
| Nodes.AncestryTransitive | src/node.cc:200-208 | an ancestor's ancestry lies within the node's |
| Nodes.DetachShrinksAncestry | src/node.cc:144-173 | cutting a node loose keeps the ranking and only removes ancestors |
| Nodes.AttachKeepsRanked | src/node.cc:74-119 | hanging a root below a node it is not an ancestor of keeps a ranking once the ranks below it are lifted |
| Nodes.DetachWired | src/node.cc:144-173 | unlinking a node from its parent's chain and clearing its parent keeps parent pointers and chains in agreement, and the chain is one shorter |
| Nodes.AttachWired | src/node.cc:98-112 | appending a parentless node to a chain and pointing it at the owner keeps parent pointers and chains in agreement |
| Nodes.AddNodeWired | src/node.cc:16-33 | a new node with no parent and no children keeps the wiring |
| Nodes.AddNodeRanked | src/node.cc:16-33 | a new root keeps the ranking |
| Nodes.CreateCoherent | src/node.cc:46-49 | creating a node keeps the whole hierarchy coherent |
| Nodes.DetachCoherent | src/node.cc:144-173 | Remove keeps the hierarchy coherent; afterwards the node has no parent and is on no chain, the others keep their parents, and the old parent's chain loses exactly that node in order |
| Nodes.DetachRest | src/node.cc:156-164 | after Remove each child counter equals its chain's length and the node is on no chain |
| Nodes.AttachCoherent | src/node.cc:74-119 | appending a root below a node it is not an ancestor of keeps the hierarchy coherent |
| Nodes.Orphaned | src/node.cc:133-142 | the parent pointers with every listed node cut loose and the others kept |
| Nodes.OrphanedStep | src/node.cc:133-142 | cutting one more child loose extends the cut prefix by one |
| Nodes.ClearFirstChild | src/node.cc:133-142 | removing the first remaining child after k removals leaves k + 1 removed and the rest of the chain |
| Nodes.AncestryBelow | src/node.cc:200-208 | an ancestor other than the node itself is an ancestor of its parent, at a strictly smaller rank |
| Nodes.AncestryLinear | src/node.cc:200-208 | of two ancestors of a node one is an ancestor of the other: the parent pointers form chains |
| Nodes.BelowChild | src/node.cc:318-341 | a node strictly below another lies below one of that node's children |
| Nodes.Subtree | src/node.cc:318-341 | the nodes that have the given node in their ancestry, all of them known |
| Nodes.ChildSubtree | src/node.cc:318-341 | a child's subtree lies strictly inside its parent's, which the parent is not part of, so the walk down the hierarchy ends |
| Nodes.SiblingsApart | src/node.cc:324-339 | two different children of one node share no node below them |
| Nodes.SubtreeSplit | src/node.cc:318-341 | a subtree is its root together with the subtrees of the root's chain of children |
| Nodes.LeafSubtree | src/node.cc:140-141 | a node without children is its whole subtree |
| Nodes.RefreshedBits | src/node.cc:385-387 | a bounding-sphere query clears only set bits, only below the queried node, and clears nothing when that node is clean |
| Nodes.RefreshedWhole | src/node.cc:385-451 | once a whole subtree is dirty, a query at its root clears all of it |
| Nodes.RefreshedLocal | src/node.cc:449-451 | what a query clears below a node depends only on the bits of that node's subtree |
| Nodes.RefreshedSplit | src/node.cc:385-451 | a query at a dirty node clears the node and, child by child, what a query at each child clears |
| Nodes.RefreshRound | src/node.cc:449-451 | in the query's walk over the children, each child sees the bits as they were before the walk, and one more child is done afterwards |
| Nodes.NodeGraph.constructor | src/node.cc:16-33 | no nodes, a coherent empty hierarchy, no bit set |
| Nodes.NodeGraph.Create | src/node.cc:16-49 | a new enabled node, never handed out before, with no parent and no children; all its dirty bits are set, its bounds and hierarchy bits included |
| Nodes.NodeGraph.Remove | src/node.cc:144-173 | the links become those with the node detached from its parent's chain and counter, the hierarchy stays coherent, and when the old parent has its hierarchy bit set the bounds of that parent's remaining subtree become dirty (Vacated); nothing else is marked |
| Nodes.NodeGraph.RemoveChild | src/node.cc:121-131 | nullptr and nodes that are not children change nothing; a child is removed as Remove does, the bounds of the parent's remaining subtree becoming dirty when its hierarchy bit is set; the reference the parent releases is not counted |
| Nodes.NodeGraph.SetBoundsDirty | src/node.cc:343-351 | the bounds bit is set on the node and every ancestor, and nothing else changes |
| Nodes.NodeGraph.TransformChanged | src/node.cc:318-341 | without suspended transform changes, the bounds bit becomes set on the node and on every node below it (its Subtree), and nothing else changes |
| Nodes.NodeGraph.HierarchyChanged | src/node.cc:311-316 | the node's hierarchy bit becomes set and the bounds of its whole subtree become dirty |
| Nodes.NodeGraph.GetBoundingSphere | src/node.cc:383-467 | the bounds bit is cleared on exactly the nodes below the queried one whose whole path up to it was dirty (Refreshed): nothing when the node is clean; nothing else changes |
| Nodes.NodeGraph.AddChild | src/node.cc:74-119 | a current child stays where it is; any other node is removed from its old parent (whose remaining subtree is marked as Remove marks it), appended at the end of the chain with the counter up by one; the bounds of the new parent and its ancestors become dirty and, when its hierarchy bit is set, so do those of its whole subtree, the new child's included; the reference the parent takes is not counted |
| Nodes.NodeGraph.Move | src/node.cc:84-112 | the node leaves its old parent, marking that parent's remaining subtree as Remove does, and is appended at the end of the chain of the new parent |
| Nodes.NodeGraph.Append | src/node.cc:98-112 | a parentless node is appended at the end of the chain and the hierarchy stays coherent |
| Nodes.NodeGraph.RemoveAllChildren | src/node.cc:133-142 | every child is cut loose, the chain is empty and the counter is 0; the removals mark nothing, and the final HierarchyChanged leaves exactly the node's own bounds and hierarchy bits newly set; the references released are not counted |
| Nodes.NodeGraph.RemoveEach | src/node.cc:135-139 | while the node's hierarchy bit is clear, the loop cuts every child loose and marks no bounds |
| Nodes.NodeGraph.RemoveFirstChild | src/node.cc:137-138 | one round of the loop removes the next child and marks no bounds, because the node's hierarchy bit is clear |
| Nodes.NodeGraph.GetRootNode | src/node.cc:200-208 | the result is an ancestor of the node and has no parent |
| Nodes.NodeGraph.IsEnabledInHierarchy | src/node.cc:242-257 | true exactly when the node and every ancestor are enabled |
| Nodes.TwoNodeHierarchy | src/node.cc:74-119 | after adding one new node to another, it is the other's only child and its parent is the other, and both have their bounds and hierarchy bits set |
| Nodes.TwoRoots | src/node.cc:16-49 | two new nodes are distinct roots without children, with their bounds and hierarchy bits set |
| Keyboards.GoodChars | src/input/keyboard.cpp:298-301 | printable ASCII 32..126 and every code from 160 on are good characters; control codes and 127..159 are not |
| Keyboards.KeyboardState.constructor | src/input/keyboard.cpp:7-16 | every table entry is the platform's key for that scan code or kUnknown, and every key starts up |
| Keyboards.KeyboardState.GetKeyByCode | src/input/keyboard.cpp:265-272 | a code past the table answers kUnknown; any other code answers its table entry |
| Keyboards.KeyboardState.IsKeyUp | src/input/keyboard.cpp:281-284 | up exactly when not down |
| Keyboards.KeyboardState.IsKeyPressed | src/input/keyboard.cpp:293-296 | pressed exactly when the key is the one that went down and is still up |
| Keyboards.KeyboardState.SetKeyDown | src/input/keyboard.cpp:285-288 | afterwards the key is down exactly when asked, and no other key changes |
| Keyboards.KeyboardState.SetKeyUp | src/input/keyboard.cpp:289-292 | afterwards the key is up exactly when asked, and no other key changes |
| Events.Lookup | src/event/event.cpp:25-38 | none exactly when no pair has the key; otherwise the value of a pair with the key that no earlier pair shares |
| Events.LookupFirstWins | src/event/event.cpp:25-38 | adding a pair under a key already present does not change what the key reads |
| Events.LookupAppended | src/event/event.cpp:85-98 | a pair added under a new key is what that key reads afterwards |
| Events.Event.constructor | src/event/event.cpp:7-12 | the event has the given type and no arguments |
| Events.Event.Type | src/event/event.cpp:17-24 | the type given at construction |
| Events.Event.ResetArgs | src/event/event.cpp:81-84 | no arguments remain |
| Events.Event.AddArg | src/event/event.cpp:85-140 | with fewer than four arguments the pair is appended; a full table is left as it is |
| Events.Event.FindArg | src/event/event.cpp:27-36 | the loop finds the value of the first pair with the key, or none |
| Events.Event.GetValueInteger | src/event/event.cpp:25-38 | the first pair's integer, or 0 when the key is missing |
| Events.Event.GetValueFloat | src/event/event.cpp:39-52 | the first pair's float, or 0 when the key is missing |
| Events.Event.GetValueBool | src/event/event.cpp:53-66 | the first pair's boolean, or false when the key is missing |
| Events.Event.GetValueStringId | src/event/event.cpp:67-80 | the first pair's identifier, or 0 when the key is missing |
| Boards.WithAxis | src/ui/board.cpp:37-88 | the moving coordinate takes the new value and the other coordinate is kept |
| Boards.ColoredBoard.constructor | src/ui/board.cpp:5-20 | the board starts on the moving axis at the minimum when asked, else at the maximum, with the other coordinate given; at rest, next moving up exactly from the minimum |
| Boards.ColoredBoard.IsPosMin | src/ui/board.cpp:25-28 | at rest and next moving up |
| Boards.ColoredBoard.IsPosMax | src/ui/board.cpp:29-32 | at rest and next moving down |
| Boards.ColoredBoard.Move | src/ui/board.cpp:33-36 | starts the motion and changes nothing else |
| Boards.ColoredBoard.Update | src/ui/board.cpp:37-88 | at rest nothing changes; moving, the coordinate slides by velocity times the step, and the board stops and turns around exactly when it passes the far end, where it is clamped; the other coordinate never changes |
| Boards.ColoredBoard.Slide | src/ui/board.cpp:37-88 | one step up is capped at the maximum, one step down floored at the minimum |
| Boards.ColoredBoard.SlideStaysInRange | src/ui/board.cpp:37-88 | with non-negative velocity and step, a step from inside the range ends inside it |
| Consoles.Added | src/ui/console.cpp:46-56 | after AddString the input line stays, the text is the newest history line, older lines move down one and the oldest is dropped |
| Consoles.Inserted | src/ui/console.cpp:123-133 | after InsertString every line moves down one, the oldest is dropped and the input line is empty |
| Consoles.Dropped | src/ui/console.cpp:110-117 | an empty input stays empty; otherwise the last symbol is removed and the rest kept |
| Consoles.DroppedUndoesAppend | src/ui/console.cpp:105-117 | removing a symbol just typed gives back the input line |
| Consoles.Console.constructor | src/ui/console.cpp:5-33 | a vertical board resting at the top (1.0) over the range from bottom, and as many empty lines and labels as the rounded line count |
| Consoles.Console.IsActive | src/ui/console.cpp:38-41 | active exactly when the board is at rest at its minimum, ready to move up |
| Consoles.Console.Move | src/ui/console.cpp:42-45 | starts the board moving and changes nothing else of it |
| Consoles.Console.AddString | src/ui/console.cpp:46-56 | the lines become those of AddString and all labels are due for refresh |
| Consoles.Console.Update | src/ui/console.cpp:57-73 | all labels refreshed when all are pending, else the input label when it is pending; then the board takes one step |
| Consoles.Console.Render | src/ui/console.cpp:74-80 | the whole tree exactly when the console is active, otherwise only the board |
| Consoles.Console.ProcessKeyInput | src/ui/console.cpp:81-95 | the grave accent without shift moves the console, backspace removes a symbol, enter pushes the input line, anything else changes nothing |
| Consoles.Console.ProcessCharInput | src/ui/console.cpp:96-100 | the character is appended to the input line, which is due for refresh |
| Consoles.Console.InsertSymbol | src/ui/console.cpp:105-109 | the symbol is appended to the input line, which is due for refresh |
| Consoles.Console.RemoveSymbol | src/ui/console.cpp:110-117 | the last symbol of a non-empty input line goes and the line is due for refresh; an empty one stays |
| Consoles.Console.PushString | src/ui/console.cpp:118-122 | the lines become those of InsertString and all are due for refresh |
| Consoles.Console.InsertString | src/ui/console.cpp:123-133 | the lines become those of InsertString and all are due for refresh |
| Widgets.RenderNeverNeverRenders | src/ui/widget.cpp:77-90 | kRenderNever never renders, kRenderAlways always does, kRenderIfActive exactly while active, and the selection and drag flags alone never do |
| Widgets.PreorderAllSnoc | src/ui/widget.cpp:66-73 | walking one more child appends that child's whole subtree |
| Widgets.RenderedAllSnoc | src/ui/widget.cpp:77-90 | rendering one more child appends that child's rendered widgets |
| Widgets.RenderedAreShown | src/ui/widget.cpp:77-90 | whatever RenderAll renders lies in the subtree, is enabled and has flags asking to be rendered |
| Widgets.RenderedAllAreShown | src/ui/widget.cpp:77-90 | the same for a list of children |
| Widgets.PreorderRanked | src/ui/widget.cpp:66-73 | every widget of a subtree is known and ranked no higher than its root |
| Widgets.PreorderAllRanked | src/ui/widget.cpp:66-73 | every widget below a list of children is ranked below their parent |
| Widgets.RenderSelfExactly | src/ui/widget.cpp:77-90 | a disabled widget renders nothing; a widget is among those rendered exactly when it is enabled and its flags ask for it |
| Widgets.AncestorShallower | src/ui/widget.cpp:158-170 | an ancestor is known and no deeper than the widget |
| Widgets.SamePlacementSamePosition | src/ui/widget.cpp:158-170 | global positions depend only on parents and positions |
| Widgets.MovingAncestorMovesSubtree | src/ui/widget.cpp:32-35 | moving a widget by d moves the global position of every widget below it by d and leaves the others where they were |
| Widgets.SelectedInThen | src/ui/widget.cpp:118-126 | a selection over a widget and some subtrees followed by one over more subtrees is one selection over all of them |
| Widgets.SameParentsCoherent | src/ui/widget.cpp:32-43 | changing anything but parent pointers keeps the widgets coherent |
| Widgets.ActiveSetThen | src/ui/widget.cpp:91-108 | setting the activity over a widget and some subtrees and then over more sets it over all of them |
| Widgets.DetachUndoesAttach | src/ui/widget.cpp:52-61 | detaching a widget just attached to a list it was not in gives back the list |
| Widgets.RemovedAll | src/ui/widget.cpp:57-61 | std::list::remove keeps exactly the other widgets and never grows the list |
| Widgets.WidgetTree.constructor | src/ui/widget.cpp:7-15 | no widgets |
| Widgets.WidgetTree.Create | src/ui/widget.cpp:16-24 | a new widget, never handed out before, at the position with the flags, no parent, no children, inactive and enabled |
| Widgets.WidgetTree.SetPosition | src/ui/widget.cpp:32-35 | only the widget's position changes |
| Widgets.WidgetTree.SetActive | src/ui/widget.cpp:36-39 | only the widget's activity changes |
| Widgets.WidgetTree.SetEnabled | src/ui/widget.cpp:40-43 | only the widget's enabled flag changes |
| Widgets.WidgetTree.AttachWidget | src/ui/widget.cpp:52-56 | the widget is appended to the child list and points back at the new parent; nothing else changes |
| Widgets.WidgetTree.DetachWidget | src/ui/widget.cpp:57-61 | every occurrence leaves the child list and the parent pointer is cleared even when it named another widget |
| Widgets.WidgetTree.WidgetHasFlag | src/ui/widget.cpp:127-130 | true exactly when some bit of the flag is set |
| Widgets.WidgetTree.UpdateAll | src/ui/widget.cpp:66-73 | Update is called on the whole subtree in pre-order |
| Widgets.WidgetTree.RenderAll | src/ui/widget.cpp:77-90 | the widgets rendered, in order, are those of the Rendered definition |
| Widgets.WidgetTree.ActivateAll | src/ui/widget.cpp:91-99 | every widget of the subtree becomes active and nothing else changes |
| Widgets.WidgetTree.DeactivateAll | src/ui/widget.cpp:100-108 | every widget of the subtree becomes inactive and nothing else changes |
| Widgets.WidgetTree.SetSubtreeActive | src/ui/widget.cpp:91-108 | the shared walk sets the activity over the whole subtree and nothing else |
| Widgets.WidgetTree.Select | src/ui/widget.cpp:109-117 | a selectable Rect becomes active exactly when the point is strictly inside it at its global position; any other widget is left alone |
| Widgets.WidgetTree.SelectAll | src/ui/widget.cpp:118-126 | Select is applied over the whole subtree, each widget judged at its global position |
| Widgets.WidgetTree.IsInsideGlobal | src/ui/rect.cpp:32-38 | strictly inside the rectangle at the widget's global position |
| Widgets.WidgetTree.ObtainGlobalPosition | src/ui/widget.cpp:158-170 | the sum of the positions of the widget and all its ancestors |
| Widgets.WidgetTree.BeginChildSearch | src/ui/widget.cpp:131-140 | with children the cursor moves to the first one and true is returned; without, false and nothing changes |
| Widgets.WidgetTree.GetNextChild | src/ui/widget.cpp:144-157 | before the end: the child under the cursor and a step forward; at the end: nullptr, false and nothing changes |
| Buttons.Step | src/ui/button.cpp:15-37 | a release untouches; a press touches when inside and otherwise keeps the state; a move keeps the touch only while inside |
| Buttons.TouchedExactly | src/ui/button.cpp:15-37 | after a run of events the button is touched exactly when a press landed inside and every later event kept the touch, or it began touched and every event kept it |
| Buttons.ReleaseUntouches | src/ui/button.cpp:34-37 | a release leaves the button untouched whatever came before |
| Buttons.Button.constructor | src/ui/button.cpp:5-10 | a new Rect widget of the given geometry and flags, not touched |
| Buttons.Button.IsTouched | src/ui/button.cpp:11-14 | the touched flag |
| Buttons.Button.OnTouchDown | src/ui/button.cpp:15-21 | the state after a press, inside exactly when the point is inside the button at its global position |
| Buttons.Button.OnTouchMove | src/ui/button.cpp:22-33 | the state after a move, inside exactly when the point is inside the button at its global position |
| Buttons.Button.OnTouchUp | src/ui/button.cpp:34-37 | the state after a release |
| Buttons.Button.Render | src/ui/button.cpp:52-61 | the touch colour exactly while touched |
| Applications.FramebufferSizeFor | src/application/application.cpp:54-64 | the edge is 1024, 2048 or 4096 and holds any window side up to 4096 |
| Applications.FramebufferSizeIsSmallestFit | src/application/application.cpp:54-64 | no edge that holds the window is smaller than the one chosen |
| Applications.FramebufferSizeMonotone | src/application/application.cpp:54-64 | a larger window never gets a smaller framebuffer |
| Applications.Application.constructor | src/application/application.cpp:15-29 | an 800 by 600 window, aspect 1, 32 colour, 24 depth and no stencil bits, no screenshot pending, no framebuffer yet |
| Applications.Application.ComputeFramebufferSize | src/application/application.cpp:54-64 | the framebuffer edge for the longer window side and its exact inverse; nothing else changes |
| Applications.Application.DesiredFrameRate | src/application/application.cpp:115-118 | a positive frame rate |
| Applications.Application.FrameTime | src/application/application.cpp:65-68 | the frame time times the desired rate is one |
| Wgl.Find | src/platform/windows/wgl.cpp:32 | strstr from a position: the first occurrence at or after it, none when there is none, and the position itself for an empty needle |
| Wgl.IsStringInExtensionStringAsWritten | src/platform/windows/wgl.cpp:23-47 | the loop as written answers what the search as written answers |
| Wgl.SearchRound | src/platform/windows/wgl.cpp:32-44 | one round of the loop as written: when it stops, its answer is the search's answer from that position; otherwise it moves strictly forward to the end of the occurrence, from where the search gives the same answer |
| Wgl.GluedOccurrenceAccepted | src/platform/windows/wgl.cpp:37 | as written, "ab" is reported inside the single name "abab", which does not hold it as a name |
| Wgl.EmptyNeedleStalls | src/platform/windows/wgl.cpp:32-44 | with an empty needle strstr finds the search position itself, the occurrence is rejected before any non-space character, and the next search starts at the same position, so the loop as written never ends |
| Wgl.IsStringInExtensionString | src/platform/windows/wgl.cpp:23-47 | with the left boundary tested against the start of the whole string: true only for a space-delimited name, true for every such name without spaces, and false for an empty needle |
| Wgl.FindPixelFormatAttribValue | src/platform/windows/wgl.cpp:59-69 | the value paired with the first matching attribute, or 0 when none matches |
| Wgl.BetterOrder | src/platform/windows/wgl.cpp:218-231 | fewer missing buffers, then closer colour, then closer other buffers is a strict total order on scores |
| Wgl.DontCareChannelIgnored | src/platform/windows/wgl.cpp:80-241 | colour channels the caller does not care about do not affect the colour difference |
| Wgl.ChooseFramebufferConfig | src/platform/windows/wgl.cpp:80-241 | none exactly when no candidate meets the stereo constraint; otherwise an eligible candidate no other eligible one beats, and strictly better than every eligible one before it |
| Images.Channels | src/image/image.cpp:59-96 | every format has one to four channels |
| Images.Bpp | src/image/image.cpp:13-58 | the bits per pixel are the channel count times the component width named by the format, always a whole number of bytes |
| Images.ExtractFileFormat | src/image/image.cpp:97-114 | "tif" and "tiff" both name TIFF, and any extension outside bmp, jpg, png, tga, tif, tiff and hdr is unknown |
| Images.ExtensionRoundTrip | src/image/image.cpp:97-114 | every known file format is recognised again from its own extension |
| Images.SwapRedBlueTwice | src/image/image.cpp:197-208 | exchanging red and blue twice gives back the original buffer |
| Images.SwapPrefixIsSwapRedBlue | src/image/image.cpp:200-206 | after the loop has covered n bytes, those bytes have red and blue exchanged pixel by pixel and the rest are untouched |
| Images.SwapPixels | src/image/image.cpp:200-206 | the pixel loop over the whole buffer leaves exactly the buffer the swap loop specifies |
| Images.SwapReachPastBuffer | src/image/image.cpp:197-208 | the swap loop as written stays inside the buffer exactly when the format has at least three channels, and reads and writes past its end otherwise |
| Images.SubDataInside | src/image/image.cpp:247-261 | after SubData a pixel inside the block holds the block's pixel at the same relative place |
| Images.SubDataOutside | src/image/image.cpp:247-261 | after SubData a pixel outside the block keeps its bytes |
| Images.SubDataColoredAt | src/image/image.cpp:262-289 | after SubDataColored a pixel in the block is the colour followed by the block's alpha byte for that place, and every other pixel keeps its bytes |
| Images.CopyDataAt | src/image/image.cpp:237-246 | after CopyData every pixel is the source pixel at the same place offset by (offset_x, offset_y) |
| Images.CopyDataInto | src/image/image.cpp:240-245 | the row loop of CopyData copies each of the height rows from the source rows in turn |
| Images.SubDataInto | src/image/image.cpp:254-260 | the row loop of SubData copies each row of the block to its row of the image |
| Images.SubDataColoredInto | src/image/image.cpp:276-288 | the two loops of SubDataColored write the widened alpha block row by row into the image |
| Images.Image.constructor | src/image/image.cpp:115-120 | a new image has no buffer and stores its rows bottom-up |
| Images.Image.Copied | src/image/image.cpp:127-142 | the copy constructor gives the same description and a fresh buffer with the same bytes |
| Images.Image.SetRowOrder | src/image/image.cpp:169-172 | only the row order changes |
| Images.Image.Allocate | src/image/image.cpp:209-219 | the image takes the size and format asked for, bytes per pixel are the format's bits over eight, and a fresh buffer of width*height*bpp bytes is returned |
| Images.Image.FillWithZeroes | src/image/image.cpp:220-223 | every byte of the buffer is zero |
| Images.Image.SwapRedBlueChannels | src/image/image.cpp:197-208 | on an image of three or four channels the buffer becomes the original with components 0 and 2 of each pixel exchanged; an image of one or two channels is left as it is (the corrected behaviour, see Findings) |
| Images.Image.CopyData | src/image/image.cpp:237-246 | the buffer becomes the block copy read from the wider source image |
| Images.Image.SubData | src/image/image.cpp:247-261 | the buffer becomes the original with the block written at the offset |
| Images.Image.SubDataColored | src/image/image.cpp:262-289 | on a four-byte image, the buffer becomes the original with the block of colour-and-alpha pixels written at the offset |
| Images.Image.CopyAsWritten | src/image/image.cpp:164-236 | Copy as written: a fresh buffer of this image's old size, its bytes read from the other image's buffer and, past its end, from the memory beyond it (reported as an over-read); a self-copy leaves whatever the new allocation held; the description becomes the other image's |
| Images.Image.Copy | src/image/image.cpp:224-236 | Copy sized by the other image: afterwards this image is a valid copy of the other, with a fresh buffer of the same bytes and the other image untouched; copying an image onto itself changes nothing |
| Images.CopyShrinksBuffer | src/image/image.cpp:224-236 | copying a 2x2 RGBA image into a 1x1 one as written leaves a buffer of 4 bytes under a description of 16 |
| Images.ReadPast | src/image/image.cpp:226 | a memcpy of a whole buffer takes the source's bytes and, past the source's end, the bytes beyond it, and reports whether it read past the end |
| Images.CopyOverReads | src/image/image.cpp:224-228 | copying a 1x1 RGBA image into a 2x2 one as written reads 16 bytes from a 4-byte buffer |
| Images.CopySelfLosesPixels | src/image/image.cpp:164-228 | copying a one-byte image holding 7 onto itself as written leaves the byte of the new allocation, 0 |
| Images.CopySelfKeepsPixels | src/image/image.cpp:224-236 | the corrected Copy of an image onto itself keeps its byte 7 |
| Meshes.ExtractFileFormat | src/model/mesh.cpp:12-22 | "obj" and only "obj" is OBJ, "scm" and only "scm" is SCM, anything else is unknown |
| Meshes.ExtensionRoundTrip | src/model/mesh.cpp:12-22 | both known mesh formats are recognised again from their own extensions |
| Meshes.DispatchToCodec | src/model/mesh.cpp:39-66 | saving or loading a file of unknown format fails, and a known format gives exactly its codec's outcome |
| Meshes.NewPart | src/model/mesh_part.cpp:7-21 | a new part holds no vertices or indices, is drawn as a triangle strip and counts no uploaded vertices |
| Meshes.Transformed | src/model/mesh_part.cpp:45-120 | transforming a part records its vertex count and keeps its primitive mode; the vertex and index lists are kept exactly when keep_data is set and emptied otherwise |
| Meshes.Mesh.constructor | src/model/mesh.cpp:24-31 | a new mesh has no parts, no bounds and does not force triangles |
| Meshes.Mesh.NumberOfParts | src/model/mesh.cpp:127-130 | the number of parts is the length of the part list |
| Meshes.Mesh.NumberOfVertices | src/model/mesh.cpp:131-139 | the parts' vertex counts summed modulo 2^32, the width of the unsigned accumulator |
| Meshes.Mesh.IsTriangleMesh | src/model/mesh.cpp:140-148 | true exactly when every part is drawn as separate triangles, so true for a mesh without parts |
| Meshes.Mesh.ForceTriangles | src/model/mesh.cpp:149-152 | triangles are forced and nothing else changes |
| Meshes.Mesh.MakeRenderable | src/model/mesh.cpp:67-90 | true exactly when every part's upload succeeds; the parts up to and including the first failure are transformed and the rest untouched; without bounds the box restarts from the empty initial box and, on success only, the sphere is taken around it |
| Meshes.RenderedVertexCount | src/model/mesh.cpp:131-139 | once every part has been made renderable, the recorded vertex counts add up to the number of vertices the parts held |
| MeshSpheres.GridRow | src/model/mesh_sphere.cpp:25-38 | row j of the grid holds slices + 1 points, column i being grid point (i, j) |
| MeshSpheres.GridAt | src/model/mesh_sphere.cpp:15-39 | the vertex at index j * (slices + 1) + i is grid point (i, j): the grid is laid out row by row and fills the buffer of (slices + 1) * loops vertices |
| MeshSpheres.GridVertices | src/model/mesh_sphere.cpp:17-39 | the two vertex loops with their running index write exactly the grid |
| MeshSpheres.StripRow | src/model/mesh_sphere.cpp:45-63 | a strip row has 2 + 2 * slices indices, plus the 2 of the degenerate pair unless it is the last row |
| MeshSpheres.StripRowsLength | src/model/mesh_sphere.cpp:42-63 | every strip row before the last is 4 + 2 * slices long |
| MeshSpheres.SphereIndicesLength | src/model/mesh_sphere.cpp:42-63 | the indices the loops write fill exactly the (2 + 2*slices)*(loops - 1) + 2*(loops - 2) entries the buffer is resized to |
| MeshSpheres.SphereIndicesBelow | src/model/mesh_sphere.cpp:42-63 | every index names a vertex of the grid: each is below (slices + 1) * loops |
| MeshSpheres.StripRowShape | src/model/mesh_sphere.cpp:45-63 | strip row j sits in the buffer after the rows before it, opens with the starts of grid rows j + 1 and j, and unless it is the last closes with its previous index repeated and the start of grid row j + 2 |
| MeshSpheres.StripIndices | src/model/mesh_sphere.cpp:43-63 | the index loops with their running index write exactly the strip rows |
| MeshSpheres.CreateSphere | src/model/mesh_sphere.cpp:9-73 | one new part with the grid vertices and the strip indices is appended, and the mesh gets the box from -radius to radius and the ball of that radius as bounds |
| SphereModels.Ring | src/model/sphere_model.cpp:95-104 | a ring holds slices points, point i being the grid point of column i on that ring's latitude |
| SphereModels.PoleVertices | src/model/sphere_model.cpp:76-105 | the untextured sphere has 2 + slices * (loops - 2) vertices, the size the buffer is resized to |
| SphereModels.RingsAt | src/model/sphere_model.cpp:89-105 | with the rings written one after the other, point i of ring j is at offset (j - 1) * slices + i |
| SphereModels.PoleVerticesAt | src/model/sphere_model.cpp:76-105 | vertex 0 is the south pole, vertex 1 the north pole, and vertex 2 + (j - 1) * slices + i is point i of ring j |
| SphereModels.PoleVertexLoops | src/model/sphere_model.cpp:76-105 | the pole writes and the ring loops with their running index produce exactly those vertices |
| SphereModels.NextColumn | src/model/sphere_model.cpp:118 | the next column stays on the ring and is 0 exactly after the last column |
| SphereModels.NextColumnWraps | src/model/sphere_model.cpp:118 | the next column is the column after i modulo the ring size |
| SphereModels.RingRow | src/model/sphere_model.cpp:110-137 | an untextured strip row has 2 + 2 * slices indices, plus the 2 of the degenerate pair unless it is the last row |
| SphereModels.PoleIndicesLength | src/model/sphere_model.cpp:108-137 | the untextured indices fill exactly the (2 + 2*slices)*(loops - 1) + 2*(loops - 2) entries the buffer is resized to |
| SphereModels.PoleIndicesBelow | src/model/sphere_model.cpp:108-137 | with at least one slice, every untextured index names one of the 2 + slices * (loops - 2) vertices |
| SphereModels.PolesCloseSphere | src/model/sphere_model.cpp:110-137 | every lower index of the first row is the south pole, every upper index of the last row the north pole, and each other row repeats its last index and then jumps to the first index of the next row |
| SphereModels.PoleIndexLoops | src/model/sphere_model.cpp:108-137 | the untextured index loops with their running index write exactly the untextured strip rows |
| SphereModels.SphereModel.constructor | src/model/sphere_model.cpp:9-15 | a new model keeps its slices, loops and radius and has no attributes, vertices or indices |
| SphereModels.SphereModel.AddFormat | src/model/generated_model.cpp:32-35 | the attribute is appended and the geometry is unchanged |
| SphereModels.SphereModel.HasTexture | src/model/generated_model.cpp:141-147 | true exactly when some attribute is a texture coordinate |
| SphereModels.SphereModel.Create | src/model/sphere_model.cpp:20-139 | with a texture coordinate the model gets the grid sphere of CreateSphere, otherwise the shared-pole vertices and their strip indices; the attributes stay as they were |
| MeshPartsEnumerators.InfoOf | src/model/mesh_parts_enumerator.cpp:22-36 | the report on part k gives its vertex and index counts and k itself; each data pointer is null exactly when that list is empty and otherwise points at part k's data |
| MeshPartsEnumerators.MeshPartsEnumerator.constructor | src/model/mesh_parts_enumerator.cpp:8-13 | a new enumerator is over the given mesh and starts at the first part |
| MeshPartsEnumerators.MeshPartsEnumerator.Reset | src/model/mesh_parts_enumerator.cpp:14-17 | the next part is the first again |
| MeshPartsEnumerators.MeshPartsEnumerator.GetNextObject | src/model/mesh_parts_enumerator.cpp:18-43 | true exactly while parts remain; then the info describes the next part and the enumerator moves past it, otherwise the info and the position are unchanged |
| VertexFormats.AttributeEquals | src/graphics/vertex_format.cpp:13-16 | two attributes are equal exactly when they have the same type and size |
| VertexFormats.PrefixSizeOfPrefix | src/graphics/vertex_format.cpp:76-85 | the offset Fill gives an attribute depends only on the attributes before it |
| VertexFormats.VertexBytesAppend | src/graphics/vertex_format.cpp:76-85 | the vertex size of two attribute lists laid one after the other is the sum of their sizes |
| VertexFormats.OffsetsMonotone | src/graphics/vertex_format.cpp:76-85 | attribute offsets never decrease along the list, and none lies past the vertex size |
| VertexFormats.FillTables | src/graphics/vertex_format.cpp:76-85 | the loop copies the attributes, gives attribute k its size and the byte offset of the floats before it, leaves the later table entries alone, and returns the byte size of them all |
| VertexFormats.VertexFormat.constructor | src/graphics/vertex_format.cpp:22-29 | a new format holds no attributes, has size zero and a zeroed generic table |
| VertexFormats.VertexFormat.Fill | src/graphics/vertex_format.cpp:69-86 | on a format not yet filled, the format holds a fresh copy of the attributes, counts them, fills their table entries with offset and size, and its vertex size is four bytes per float of them all |
| VertexFormats.VertexFormat.IsSame | src/graphics/vertex_format.cpp:58-68 | true exactly when the given attributes are as many as the format's and pairwise equal to them |
| VertexFormats.VertexFormat.Equals | src/graphics/vertex_format.cpp:38-41 | two formats are equal exactly when they hold the same attributes |
| PhysicsCollisionObjects.LessAsWrittenNotTransitive | src/physics/physics_collision_object.cpp:204-218 | operator< as written is not a strict weak ordering: (1,2) < (1,3) and (1,3) < (2,1), yet (1,2) and (2,1) are equivalent |
| PhysicsCollisionObjects.KeyOf | src/physics/physics_collision_object.cpp:204-218 | the unordered key of a pair holds its two objects, the smaller first |
| PhysicsCollisionObjects.SameKeyMeansEqualOrSwapped | src/physics/physics_collision_object.cpp:206-208 | two pairs have the same key exactly when they are equal or swapped, the case operator< treats as equal |
| PhysicsCollisionObjects.LessIsStrictWeakOrder | src/physics/physics_collision_object.cpp:204-218 | the corrected ordering is irreflexive and transitive, and two pairs are equivalent under it exactly when they are equal or swapped |
| PhysicsCollisionObjects.LessTotal | src/physics/physics_collision_object.cpp:204-218 | two pairs of different objects are ordered one way or the other, and never both ways |
| PhysicsCollisionObjects.LessAgreesOnOrderedPairs | src/physics/physics_collision_object.cpp:204-218 | on pairs written smaller object first the corrected ordering is exactly operator< as written |
| PhysicsCollisionObjects.PhysicsCollisionObject.constructor | src/physics/physics_collision_object.cpp:31-40 | a new object keeps its group and mask and is enabled |
| PhysicsCollisionObjects.PhysicsCollisionObject.IsKinematic | src/physics/physics_collision_object.cpp:78-89 | ghost objects and characters are kinematic; every other kind is what Bullet reports |
| PhysicsCollisionObjects.PhysicsCollisionObject.IsStatic | src/physics/physics_collision_object.cpp:91-102 | ghost objects and characters are never static; every other kind is what Bullet reports |
| PhysicsCollisionObjects.PhysicsCollisionObject.SetEnabled | src/physics/physics_collision_object.cpp:115-136 | the object ends up as asked; the controller is told only on a change, to add the object when it becomes enabled and to remove it keeping its listeners when it becomes disabled |
| PhysicsCollisionObjects.SetEnabledTwice | src/physics/physics_collision_object.cpp:115-136 | asking twice for the same state makes no controller call the second time |
| PhysicsCollisionObjects.GhostsAreKinematicNotStatic | src/physics/physics_collision_object.cpp:78-102 | a ghost object or character is kinematic and not static whatever Bullet reports |
| PhysicsControllers.Find | src/physics/physics_controller.cpp:510-518 | a lookup in the cache finds the first entry naming the same two objects, stored either way round, and finds none only when no entry names them |
| PhysicsControllers.Get | src/physics/physics_controller.cpp:510-518 | the cache holds something for a pair exactly when some entry names its two objects |
| PhysicsControllers.SortedFind | src/physics/physics_collision_object.h:41-68 | in a cache kept in key order the entry for a pair is the only one naming its objects |
| PhysicsControllers.InsertSorted | src/physics/physics_controller.cpp:519-520 | adding an entry for a pair not yet in the cache keeps it in key order |
| PhysicsControllers.InsertGet | src/physics/physics_controller.cpp:519-520 | after adding an entry for a new pair the cache holds it for that pair and is unchanged for every other pair |
| PhysicsControllers.SetInfoGet | src/physics/physics_controller.cpp:575-577 | changing the info of a pair's entry keeps the cache in order and changes what it holds for that pair only |
| PhysicsControllers.Fire | src/physics/physics_controller.cpp:547-556 | the listener loop of a collision event calls each listener once, in order, with the event and the pair |
| PhysicsControllers.FireStatus | src/physics/physics_controller.cpp:126-134 | the status listener loop calls each status listener once, in order, with the new status |
| PhysicsControllers.NextStatus | src/physics/physics_controller.cpp:95-124 | from either status the world ends up activated exactly when some world object is active |
| PhysicsControllers.SurvivorsSorted | src/physics/physics_controller.cpp:152-176 | pass 1 keeps the cache in key order |
| PhysicsControllers.SurvivorsGet | src/physics/physics_controller.cpp:152-176 | after pass 1 an entry marked for removal is gone and every other entry is dirty |
| PhysicsControllers.ClearedGet | src/physics/physics_controller.cpp:196-212 | pass 3 keeps the pairs and their order and clears the collision flag of exactly the entries still dirty |
| PhysicsControllers.ContactGet | src/physics/physics_controller.cpp:494-565 | a contact keeps the cache in order, leaves its pair's entry colliding and not dirty, and changes no other pair |
| PhysicsControllers.ContactFiresOnlyOnNewCollision | src/physics/physics_controller.cpp:545-563 | a contact fires events only for a pair not already colliding and not marked for removal; a new pair's listeners are those of its first object followed by those of its second |
| PhysicsControllers.ContactsGet | src/physics/physics_controller.cpp:178-193 | after the contacts of a step every pair that had one is colliding and not dirty, and every other pair is as it was |
| PhysicsControllers.UpdateCollisionBits | src/physics/physics_controller.cpp:143-212 | after one update a pair has an entry exactly when it had one not marked for removal or had a contact, and it is colliding exactly when it had a contact |
| PhysicsControllers.RemovalNotesFrom | src/physics/physics_controller.cpp:155-170 | pass 1 only sends NotColliding, naming the first object of a removed pair of two objects that was colliding, to a listener of that pair |
| PhysicsControllers.ClearNotesFrom | src/physics/physics_controller.cpp:199-210 | pass 3 only sends NotColliding, naming a pair of two objects that was dirty and colliding, to a listener of that pair |
| PhysicsControllers.MarkObjectGet | src/physics/physics_controller.cpp:645-654 | marking keeps the cache in order and sets the removal flag on exactly the pairs that hold the object |
| PhysicsControllers.RemovedObjectLeavesCache | src/physics/physics_controller.cpp:619-654 | after an object is removed with its listeners, the next update's pass 1 drops every pair that holds it |
| PhysicsControllers.RemoveFirstRemovesOne | src/physics/physics_controller.cpp:225-239 | removing from a list drops exactly the first occurrence and keeps the order of the rest; a value not in the list leaves it unchanged |
| PhysicsControllers.DirtyPass | src/physics/physics_controller.cpp:152-176 | the loop of pass 1 leaves exactly the surviving dirtied entries and fires exactly the removal events |
| PhysicsControllers.ClearPass | src/physics/physics_controller.cpp:196-212 | the loop of pass 3 leaves exactly the cleared entries and fires exactly the NotColliding events |
| PhysicsControllers.MarkPass | src/physics/physics_controller.cpp:645-654 | the marking loop leaves exactly the marked cache |
| PhysicsControllers.Contact | src/physics/physics_controller.cpp:494-565 | addSingleResult on the entries finds or creates the pair's entry, fires its events and leaves the cache of a contact; the removal flag is tested once for all the pair's listeners, which do not re-enter the controller |
| PhysicsControllers.AddContactEntry | src/physics/physics_controller.cpp:519-542 | a new contact entry is put in key order with the listeners of its first object and then of its second |
| PhysicsControllers.PhysicsController.constructor | src/physics/physics_controller.cpp:34-49 | a new controller has an empty cache, is deactivated, has no status listener list and is not updating |
| PhysicsControllers.PhysicsController.AddStatusListener | src/physics/physics_controller.cpp:216-223 | the listener is appended to the status listener list, created on first use; nothing else changes |
| PhysicsControllers.PhysicsController.RemoveStatusListener | src/physics/physics_controller.cpp:225-239 | without a list nothing happens; otherwise the first occurrence of the listener goes and nothing else changes |
| PhysicsControllers.PhysicsController.AddCollisionListener | src/physics/physics_controller.cpp:566-578 | the pair's entry, created if absent, gets the listener appended and the registered flag; every other pair is unchanged |
| PhysicsControllers.PhysicsController.RemoveCollisionListener | src/physics/physics_controller.cpp:579-590 | an existing entry for the pair is marked for removal and no entry is created; every other pair is unchanged |
| PhysicsControllers.PhysicsController.RemoveCollisionObject | src/physics/physics_controller.cpp:619-655 | with removeListeners every pair that holds the object is marked for removal, otherwise the cache is unchanged |
| PhysicsControllers.PhysicsController.DestroyShape | src/physics/physics_controller.cpp:1068-1083 | a non-null shape held once leaves the shape list, first occurrence only; otherwise the list is unchanged |
| PhysicsControllers.PhysicsController.CheckStatus | src/physics/physics_controller.cpp:95-142 | with a status listener list the world is activated exactly when some object is active, and the listeners hear the new status only when it changed; without a list nothing changes |
| PhysicsControllers.PhysicsController.DirtyCache | src/physics/physics_controller.cpp:152-176 | pass 1 on the controller's cache, which stays in key order |
| PhysicsControllers.PhysicsController.AddSingleResult | src/physics/physics_controller.cpp:494-565 | a contact on the controller's cache, which stays in key order; listeners do not re-enter the controller |
| PhysicsControllers.PhysicsController.ClearCache | src/physics/physics_controller.cpp:196-212 | pass 3 on the controller's cache, which stays in key order |
| PhysicsControllers.PhysicsController.Update | src/physics/physics_controller.cpp:85-215 | the status check, pass 1, the contacts and pass 3 in that order, leaving the cache those passes specify and firing their events in that order; the controller is not updating afterwards; listeners do not re-enter the controller |
| PhysicsControllers.PhysicsController.ContactTests | src/physics/physics_controller.cpp:178-193 | pass 2 applies the reported contacts in order, leaving the cache in key order and firing the events of each contact in turn, with listeners that do not re-enter the controller |

## Left out

- Floating-point geometry and numerics are not modelled. This covers matrices, vectors, quaternions, bounding volumes, camera and colour code, the float helpers of common.h (AreEqual and the vector functions), and vertex positions, normals and texture coordinates. Their behaviour is about rounding.
- Image: the float colour conversion, the alpha blend and the normal-map code of image.cpp are not modelled.
- The file codecs are not modelled: PNG, JPEG, OBJ and SCM readers and writers, files and streams. Meshes.DispatchToCodec records only which codec a format selects.
- OpenGL, Win32 and Bullet calls are not modelled. Where the logic reads an answer back, the answer is a parameter:
  - a mesh part's upload result (Meshes.Mesh.MakeRenderable);
  - Bullet's activation states and contact reports (PhysicsControllers.PhysicsController.Update);
  - Bullet's isKinematicObject and isStaticObject (PhysicsCollisionObjects).
- PhysicsControllers.PhysicsController.Update: the world step itself (stepSimulation) is not modelled. The contact tests Bullet runs for the registered pairs that are not being removed are given as the list of contacts they report.
- PhysicsControllers: AddCollisionObject and the other world-editing calls only call into Bullet and are not modelled.
- PhysicsControllers.PhysicsController.AddSingleResult requires both collision objects of a contact to be non-null, because Bullet reports contacts between real objects only.
- PhysicsControllers: the cache is ordered by the evidently intended comparator PhysicsCollisionObjects.Less. A std::map ordered by operator< as written has no defined behaviour (see Findings).
- PhysicsControllers: the loops that copy listener vectors are modelled as sequence appends.
- PhysicsControllers.Contact and PhysicsControllers.ContactNotes test the pair's removal flag once, before its Colliding events. The source tests it again before each listener (physics_controller.cpp:551), so a listener that calls RemoveCollisionListener from its CollisionEvent silences the later listeners of that pair. Listeners are inert identifiers in this model and never re-enter the controller, so that case is not modelled.
- PhysicsControllers.PhysicsController.AddSingleResult fires the events PhysicsControllers.ContactNotes gives, so a listener that removes its pair mid-loop is not modelled.
- PhysicsControllers.PhysicsController.ContactTests applies each contact through PhysicsControllers.Contact and does not model a listener that removes its pair mid-loop.
- PhysicsControllers.PhysicsController.Update runs ContactTests for its contacts and does not model a listener that removes its pair mid-loop.
- Meshes.Mesh.MakeRenderable: the growth of the bounding box by each part's float vertices is not modelled. Only the choice between a fresh box and the existing one is.
- MeshSpheres.CreateSphere: indices are unbounded integers. The source computes them in 32 bits, which does not wrap for any sphere small enough to allocate.
- SphereModels.PoleIndicesBelow requires at least one slice. With zero slices, the untextured branch still writes ring index 2, while there are only 2 vertices.
- The clock is a parameter of TimeManagers.TimeManager.Update.
- TimeManagers.TimeManager.Update: the debug-build clamp of the frame time (time_manager.cpp:19-23) is not modelled. The model is the release build.
- timer.cpp is not part of this model. A timer is its interval, its accumulated time and its enabled flag.
- Keyboards.KeyboardState.constructor takes the platform's scan-code assignments as a parameter instead of the literal FillTable data.
- Keyboards.KeyboardState.GetKeyByCode follows the debug-build guard. A release build reads past the table for a code at or beyond kTableSize.
- Events.Event.GetValueInteger, GetValueFloat, GetValueBool and GetValueStringId require that a value found under the key has the requested type. This is the source's debug assertion, and a missing key yields the release-build default.
- Consoles.Console.AddString requires at least two lines, because the source writes line 1 unconditionally.
- Nodes.NodeGraph.AddChild requires the new child not to be the node itself or one of its ancestors. Nothing in the source prevents that case, and it would make the hierarchy cyclic.
- Nodes: SetEnabled, GetScene and the detaching from a scene in AddChild are not modelled.
- Nodes: the world-transform dirty bit is not kept. The bounds and hierarchy bits are.
- Nodes.NodeGraph.AddChild does not model the reference the parent takes on a new child (node.cc:83). Node reference counts are not modelled.
- Nodes.NodeGraph.RemoveChild does not model the release of the child's reference (node.cc:130), which deletes a child that only its parent held. A released child is assumed to be held elsewhere and stays a known, detached node.
- Nodes.NodeGraph.RemoveAllChildren, Nodes.NodeGraph.RemoveEach and Nodes.NodeGraph.RemoveFirstChild release each child as RemoveChild does, so the deletion of children that only the node held is not modelled either.
- Nodes.NodeGraph.TransformChanged models the case where the node's transform is not suspended. The suspended branch (node.cc:326-334) and the notification of the transform's listeners are not modelled.
- Nodes.NodeGraph.GetBoundingSphere models only which bounds bits the query clears. The sphere it computes is floating point and is not modelled.
- Widgets: the traversals take a ghost ranking of the tree. The source never checks that AttachWidget keeps the widgets a tree, and its recursions only end on one.
- SceneManagers: the resource count that the deferred transition passes to its listener is not modelled.
- ResourceManagers.ResourceManager.PerformStep, ResourceManagers.ResourceManager.Perform and ResourceManagers.FirstPending visit the entries in registration order. The source iterates a std::unordered_map, whose order is unspecified, so only results that do not depend on the order carry over.
- Transforms: IsStatic is a constructor parameter. The matrix, Rotate's arithmetic and what listeners do when notified are not modelled.
- Transforms: the static suspension counter and the static queue are one ChangeQueue object that the methods receive.
- Wgl.ChooseFramebufferConfig: the differences are unbounded integers. The source starts from unsigned sentinels (~0) and sums unsigned squares, which could wrap for absurd buffer sizes.
- Wgl: Initialize, CreateContext and _ChoosePixelFormat are not modelled. They are window-system calls.
- RefCounting: the leak-detection bookkeeping of debug builds is not modelled. Deleting the object is a ghost flag.
- DoublyLinkedList, ForwardLists and LinkedStacks model each container as the sequence of its elements. Node objects, their links, aliasing between lists and iterator stability across other insertions are not modelled. An iterator of List is a position.
- DoublyLinkedList: swap, copy and move are not modelled. DynamicArray: iterators, copy, move, swap and the allocator are not modelled. Maps and Sets: copy, move, swap and the allocator are not modelled.
- LinkedStacks.Stack.SetByCopy pushes with Push, the stack's own operation. The source calls push_front, which Stack does not define, so the template cannot be instantiated as written.
- LruCaches.LruCacheSet models its hash set as the set of its values. As written, the source finds and erases list iterators in a set of values, which does not compile.
- LruCaches.LruCache.Put keeps the stored value of a key that is already present, as the source does; LruCaches.PutPresentKeepsValue states it. No variant that updates the value is modelled.
- RedBlackTrees.Delete is proved to keep the search-tree order, the keys and the elements. It is not proved to keep the colour invariant, because the colour fix-up after a deletion is not modelled.
- StackLinkedLists.StackLinkedList.Push requires that the node is not already on the list. Pushing it twice would make the list cyclic.
- PoolAllocation: the copy and move constructors are not modelled.
- ConanRecipe: layout, build, package and the dependency solver only invoke CMake and Conan and are not modelled.
- ConanRecipe.ValidationOf follows Conan 2's check_min_cppstd, which is Conan's code and not the recipe's: the version is stripped of its "gnu" prefix, given its century and compared as a year. The standards later than C++23 that newer Conan releases accept are not modelled.
- Concurrency (spin_lock.cpp) is not modelled.

## Findings

| source | as written | input that shows it | evidently intended | confidence | as-written member | corrected member |
|---|---|---|---|---|---|---|
| src/containers/array.h:296-329 | reserve(n) records n as the capacity even when n is below the current capacity, and reserve(0) frees the buffer but keeps the size | a buffer of 8 holding 6 elements, then reserve(2): capacity 2, size 6; a later reserve(4) moves 6 elements into a 4-element buffer | reserve never shrinks: it grows the buffer to n when n exceeds the capacity and otherwise changes nothing | not executed | DynamicArray.ReserveAsWritten, with DynamicArray.ReserveShrinksBelowSize and DynamicArray.ReserveAfterShrinkOverflows | DynamicArray.ReserveIntended, used by DynamicArray.Array.Reserve |
| src/containers/array.h:336-350 | resize sets size_ to the new size before calling reserve, whose move loop then moves that many elements out of the old buffer | push_back onto an array holding 4 elements in a buffer of 4: reserve(6) moves 5 elements out of the 4-element buffer | reserve first, then set the size | not executed | DynamicArray.ResizeAsWritten, with DynamicArray.PushBackOnFullReadsPast | DynamicArray.Array.Resize |
| src/containers/forward_list.h:90-94 | copy assignment clears the list, then copies from the other list | a list assigned to itself: it ends empty | self-assignment leaves the list unchanged | not executed | ForwardLists.ForwardList.CopyAssignAsWritten, with ForwardLists.SelfCopyAssignEmpties | ForwardLists.ForwardList.CopyAssign |
| src/containers/map.h:439-453 | erase(key) deletes the node it found and then advances the iterator from that freed node | erasing key 1 from a map holding it | stop once the node is deleted, or advance before deleting | not executed | Maps.Map.EraseKeyAsWritten, with Maps.EraseKeyReadsFreedNode | Maps.Map.EraseKey |
| src/containers/set.h:414-428 | erase(value) deletes the node it found and then advances the iterator from that freed node | erasing value 4 from a set holding it | stop once the node is deleted, or advance before deleting | not executed | Sets.Set.EraseValueAsWritten, with Sets.EraseValueReadsFreedNode | Sets.Set.EraseValue |
| src/resource_manager.cpp:47-56 | UnregisterResource erases the iterator returned by find without checking it | an id that was never registered: end() is erased | an unknown id is ignored | not executed | ResourceManagers.ResourceManager.UnregisterResourceAsWritten, with ResourceManagers.UnregisterUnknownErasesEnd | ResourceManagers.ResourceManager.UnregisterResource |
| src/math/transform.cpp:474-479 | SetScale(const Vector3&) has no IsStatic guard, unlike every other mutator | a static transform given scale (2, 2, 2) takes it | a static transform ignores the call | not executed | Transforms.Transform.SetScaleAsWritten, with Transforms.StaticTransformTakesScale | Transforms.Transform.SetScale |
| src/platform/windows/wgl.cpp:36-43 | the left boundary test `where == start` accepts an occurrence glued to the end of a rejected one | needle "ab" in the extension string "abab" is reported, though "abab" is one name | test the left boundary against the beginning of the whole string | not executed | Wgl.IsStringInExtensionStringAsWritten, with Wgl.GluedOccurrenceAccepted | Wgl.IsStringInExtensionString |
| src/platform/windows/wgl.cpp:32-44 | with an empty needle, strstr finds the search position itself, the occurrence is rejected and the search resumes at the same position | an empty needle and the extension string "WGL_ARB_x": the loop never ends | an empty needle is rejected at once | not executed | Wgl.EmptyNeedleStalls | Wgl.IsStringInExtensionString |
| src/image/image.cpp:224-236 | Copy sizes the new buffer from this image's old dimensions, then takes the other image's dimensions | a 1x1 RGBA image copied from a 2x2 RGBA image: a 4-byte buffer for a 16-byte image | size the buffer from the other image | not executed | Images.Image.CopyAsWritten, with Images.CopyShrinksBuffer | Images.Image.Copy |
| src/image/image.cpp:224-228 | Copy reads as many bytes as this image's old size from the other image's buffer, however small that buffer is | a 2x2 RGBA image copied from a 1x1 RGBA image: 16 bytes read from a 4-byte buffer | read only the other image's bytes, into a buffer of its size | not executed | Images.Image.CopyAsWritten, with Images.CopyOverReads | Images.Image.Copy |
| src/image/image.cpp:164-228 | Copy frees this image's buffer before reading the other image's, so copying an image onto itself reads the new, uninitialised buffer | a 1x1 L8 image holding 7 copied onto itself, the new allocation holding 0: it ends up holding 0 | copying an image onto itself changes nothing | not executed | Images.Image.CopyAsWritten, with Images.CopySelfLosesPixels | Images.Image.Copy, with Images.CopySelfKeepsPixels |
| src/image/image.cpp:197-208 | SwapRedBlueChannels exchanges component 0 with component 2 whatever the channel count; with one or two channels component 2 of the last pixel lies past the buffer | a 1x1 L8 image: the loop reads and writes bytes 0 to 2 of a 1-byte buffer | leave images with fewer than three channels as they are | not executed | Images.SwapReach, with Images.SwapReachPastBuffer | Images.Image.SwapRedBlueChannels |
| src/physics/physics_collision_object.cpp:204-218 | operator< treats a pair and its swap as equivalent but otherwise compares the pairs as written, so it is not a strict weak ordering | (1,2) < (1,3) and (1,3) < (2,1), yet (1,2) and (2,1) are equivalent | compare the pairs with their objects in a canonical order | not executed | PhysicsCollisionObjects.LessAsWrittenNotTransitive | PhysicsCollisionObjects.LessIsStrictWeakOrder |
