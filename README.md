# A verified model of KeySet, ModelSelectorState, texture logic, GeometryList and EnumTypeConverter

This project models five in-memory parts of iModel.js in Dafny and proves properties of them:

- **KeySet** (presentation). The selection container. It holds two kinds of key:
  - *instance keys*: a map from class name to a set of id strings;
  - *node keys*: a set of serialized node keys.

  It also holds a change token (`guid`). The model covers:
  - the duck-typed classification of a key;
  - `add`, `delete` and `clear`, including the key predicate and arrays of keys;
  - `has`, `hasAll` and `hasAny` on a single key, an array or another set;
  - the counts and `isEmpty`;
  - the `instanceKeys` and `nodeKeys` views;
  - `toJSON`, `addKeySetJSON` and `fromJSON`.
- **ModelSelectorState** (frontend). An insertion-ordered set of model ids, with `addModels`, `dropModels`, `has`, `containsModel`, `equalState` and the model list in `toJSON`.
- **Texture.ts** (WebGL renderer), its integer and decision logic:
  - the byte count of a texture;
  - the image-property table;
  - power-of-two rounding and size capping in `createForImage`;
  - the six-face check of a cube map;
  - the write-once `bytesUsed` of a texture handle;
  - the conditions of `update`;
  - the in-place byte buffer `Texture2DDataUpdater`.
- **GeometryList**. An append-only list of primitives with `push`, `append`, `clear`, `first`, `isEmpty`, `length` and its iterator.
- **EnumTypeConverter**. `getPosition` finds the first choice that matches. `convertPropertyToString` uses its label, or falls back to the base converter.

Modules and files:

| module | file | contents |
|---|---|---|
| `Wrappers` | wrappers.dfy | `Option` |
| `NodeKeys` | node_keys.dfy | key shapes and their classification; the id-normalising stand-in; a canonical, invertible text form for node keys |
| `KeySetSpec` | keyset_spec.dfy | the contents of a KeySet as a value (`Store`); every operation as a function on it; the lemmas about them |
| `KeySets` | keysets.dfy | `class KeySet` with the source's mutable fields. Each method is proved to turn `Model()` into the `KeySetSpec` function of the old model. `class GuidSource` is the token generator. |
| `ModelSelector` | model_selector.dfy | `class ModelSelectorState` over a `seq` that stands for the JS `Set` in its iteration order, plus the functions and lemmas it is proved against |
| `Textures` | textures.dfy | Texture.ts |
| `Geometry` | geometry_list.dfy | `GeometryList` and its iterator |
| `EnumConverter` | enum_type_converter.dfy | `EnumTypeConverter` |

Stand-ins for code outside the core:

- **`JSON.stringify` and `JSON.parse` of a node key.** These are `NodeKeys.Ser` and `NodeKeys.Deser`, a prefix code over the key's fields. It is proved injective, with `Deser` its inverse, and every string that parses is canonical.
- **`Id64.fromJSON`.** This is `NodeKeys.NormalizeId`. It lower-cases ASCII letters and maps "" to "0", so its result is never empty.
- **`Guid.createValue`.** This is `GuidSource.CreateValue`, a counter that hands out a fresh number on each call.
- **`isPowerOfTwo` and `nextHighestPowerOfTwo`** (imodeljs-common). These are `Textures.IsPowerOfTwo` (which, like the bit trick `n & (n - 1)`, holds for 0) and `Textures.NextPowerOfTwo` (0 maps to 0; otherwise the least power of two ≥ n).
- **GL capabilities.** `supportsNonPowerOf2Textures` and `maxTextureSize` are a parameter.
- **Base `convertToString`.** A function parameter of `ConvertPropertyToString`.

Where the code and its own doc comments differ, the model follows the code. For instance, the comment on `hasAll` (presentation/common/src/KeySet.ts:314-317) says that it checks that the set contains every given key; the code also compares counts first:

- **Empty buckets stay in a KeySet.** A merge whose predicate rejects every id of a class creates an empty bucket (`KeySetSpec.AddSetCreatesEmptyBuckets`). A delete that empties a bucket keeps it. `clear` on a set whose size is 0 keeps its buckets.
- **Empty buckets are invisible to `size` and `toJSON`, but not to `hasAll`.** `hasAll(KeySet)` compares bucket counts and requires each bucket to be present. So a set that holds an empty bucket is not contained in `fromJSON(toJSON(s))`. `KeySetSpec.RoundTrip` proves that containment holds exactly when `s` has no empty bucket.
- **`hasAll` on an array compares `size` with the array's length first.** So an array that repeats a key the set holds answers false (`KeySetSpec.RepeatedKeyDefeatsSizeCheck`).
- **Entity-props ids are normalised by `add` only.** `delete` and `has` use the id as given (`KeySetSpec.EntityPropsNormalisedOnAddOnly`).

## Model

| member | source | states |
|---|---|---|
| NodeKeys.Classify | presentation/common/src/KeySet.ts:22-34 | A value is entity props iff `classFullName` and `id` are truthy. Otherwise it is an instance key iff `className` and `id` are. Otherwise it is a node key iff `type` is. Anything else, falsy values included, is unrecognised. |
| NodeKeys.NormalizeId | presentation/common/src/KeySet.ts:189 | The normalised id of an entity is never empty. For the stand-in, a non-empty id keeps its length. |
| NodeKeys.DecodeString | presentation/common/src/KeySet.ts:114 | Parsing one string off the front of a text leaves a strictly shorter rest. |
| NodeKeys.DecodeList | presentation/common/src/KeySet.ts:114 | Parsing a list of strings leaves a strictly shorter rest. |
| NodeKeys.DecodeEncodeString | presentation/common/src/KeySet.ts:195 | An encoded string followed by any text parses back to the string and that text. |
| NodeKeys.DecodeEncodeList | presentation/common/src/KeySet.ts:195 | An encoded list followed by any text parses back to the list and that text. |
| NodeKeys.SerRoundTrip | presentation/common/src/KeySet.ts:111-118 | Parsing the stored form of a node key gives the key back. |
| NodeKeys.SerInjective | presentation/common/src/KeySet.ts:195 | Two node keys have the same stored form only if they are equal, so the node set holds each key once. |
| NodeKeys.EncodeDecodeString | presentation/common/src/KeySet.ts:114 | Text that parses as a string is that string's encoding followed by the rest. |
| NodeKeys.EncodeDecodeList | presentation/common/src/KeySet.ts:114 | Text that parses as a list is that list's encoding followed by the rest. |
| NodeKeys.DecodeListCons | presentation/common/src/KeySet.ts:114 | A parsed list that starts with an element is that element followed by the rest of the parsed list. |
| NodeKeys.EncodeListFront | presentation/common/src/KeySet.ts:114 | Text that is a '+', an encoded string and an encoded list is the encoding of the longer list. |
| NodeKeys.DeserCanonical | presentation/common/src/KeySet.ts:167-172 | Re-serializing a parsed node key reproduces the stored string exactly. |
| NodeKeys.SerOfParts | presentation/common/src/KeySet.ts:195 | Text made of the encoded fields of a node key, in order, is that key's stored form. |
| KeySetSpec.BucketSumRemove | presentation/common/src/KeySet.ts:345-351 | The sum of bucket sizes is one bucket's size plus the sum over the others. |
| KeySetSpec.RowCount | presentation/common/src/KeySet.ts:99-103 | A bucket contributes as many (class, id) members as it has ids. |
| KeySetSpec.NodeMembersCount | presentation/common/src/KeySet.ts:123-125 | The node-key count is the number of node members. |
| KeySetSpec.InstanceMembersCount | presentation/common/src/KeySet.ts:99-103 | `instanceKeysCount`, the sum of the bucket sizes, is the number of (class, id) members. |
| KeySetSpec.SizeIsMemberCount | presentation/common/src/KeySet.ts:345-351 | `size` is the number of distinct members: node keys plus (class, id) pairs. |
| KeySetSpec.EmptyBucketAddsNothing | presentation/common/src/KeySet.ts:345-351 | An empty bucket adds 0 to the size. |
| KeySetSpec.HasKey | presentation/common/src/KeySet.ts:251-263 | `has` is rejected exactly for unrecognised values. Otherwise it is true iff the queried member is in the set. |
| KeySetSpec.ContainsIsMember | presentation/common/src/KeySet.ts:256-261 | The bucket lookup and the node-set lookup agree with membership. |
| KeySetSpec.InsertMembers | presentation/common/src/KeySet.ts:190-195 | Adding a member adds exactly that member. An instance key creates its class bucket if it is missing. A node key leaves the buckets alone. |
| KeySetSpec.RemoveMembers | presentation/common/src/KeySet.ts:233-238 | Deleting a member removes exactly that member. No bucket is ever removed. |
| KeySetSpec.InsertPresent | presentation/common/src/KeySet.ts:191-195 | Adding a present member leaves the contents identical. |
| KeySetSpec.InsertSize | presentation/common/src/KeySet.ts:190-195 | An add grows the size by 1 if the member was absent, and by 0 otherwise. |
| KeySetSpec.RemoveSize | presentation/common/src/KeySet.ts:233-238 | A delete shrinks the size by 1 if the member was present, and by 0 otherwise. |
| KeySetSpec.AddThenHas | presentation/common/src/KeySet.ts:190-195 | After adding an instance or node key, `has` of it is true. The members are the old ones plus that key. |
| KeySetSpec.DeleteThenHas | presentation/common/src/KeySet.ts:231-238 | After deleting any recognised key, `has` of it is false. The members are the old ones minus that key. |
| KeySetSpec.EntityPropsNormalisedOnAddOnly | presentation/common/src/KeySet.ts:188-189 | Entity props with id "0X1" are added under "0x1", so `has` of the same props answers false. |
| KeySetSpec.AddPresentKeyChangesNothing | presentation/common/src/KeySet.ts:191-195 | Adding a key already present leaves the contents, and therefore the size, unchanged. |
| KeySetSpec.AddKeyIdempotent | presentation/common/src/KeySet.ts:180-201 | Adding the same single key twice is the same as adding it once. |
| KeySetSpec.AddKeysOk | presentation/common/src/KeySet.ts:186-187 | An array add succeeds iff every element the predicate lets through is recognised. |
| KeySetSpec.AddKeysMembers | presentation/common/src/KeySet.ts:186-187 | A successful array add inserts exactly the accepted elements' members. |
| KeySetSpec.AddedMembersSnoc | presentation/common/src/KeySet.ts:186-187 | The members an array adds are those of all but its last element, plus the last element's member when it is accepted and recognised. |
| KeySetSpec.AddKeysGrows | presentation/common/src/KeySet.ts:187 | An array add, even one that throws part-way, removes no member. |
| KeySetSpec.DeleteKeysOk | presentation/common/src/KeySet.ts:228-230 | An array delete succeeds iff every element is recognised. |
| KeySetSpec.DeleteKeysMembers | presentation/common/src/KeySet.ts:228-230 | A successful array delete removes exactly the queried members of its elements. |
| KeySetSpec.DeletedMembersSnoc | presentation/common/src/KeySet.ts:228-230 | The members an array deletes are those of all but its last element, plus the last element's member. |
| KeySetSpec.AddKeysStuck | presentation/common/src/KeySet.ts:187 | Once an element throws, the later elements are not added: the state is that after the prefix. |
| KeySetSpec.DeleteKeysStuck | presentation/common/src/KeySet.ts:229-230 | Once an element throws, the later elements are not deleted. |
| KeySetSpec.AllHaveMeaning | presentation/common/src/KeySet.ts:299-303 | The "all" walk answers true iff every element's `has` is true. |
| KeySetSpec.AllHaveStops | presentation/common/src/KeySet.ts:299-302 | The "all" walk answers false iff some element's `has` is false and every earlier one is true. |
| KeySetSpec.AllHaveStopsWhere | presentation/common/src/KeySet.ts:299-302 | A false answer of the "all" walk comes from an element whose `has` is false, with every earlier one true. |
| KeySetSpec.AllHaveStopsAt | presentation/common/src/KeySet.ts:299-302 | An element whose `has` is false, with every earlier one true, makes the "all" walk answer false. |
| KeySetSpec.AnyHasMeaning | presentation/common/src/KeySet.ts:307-311 | The "any" walk answers false iff every element's `has` is false. |
| KeySetSpec.AnyHasStops | presentation/common/src/KeySet.ts:307-310 | The "any" walk answers true iff some element's `has` is true and every earlier one is false. |
| KeySetSpec.AnyHasStopsWhere | presentation/common/src/KeySet.ts:307-310 | A true answer of the "any" walk comes from an element whose `has` is true, with every earlier one false. |
| KeySetSpec.AnyHasStopsAt | presentation/common/src/KeySet.ts:307-310 | An element whose `has` is true, with every earlier one false, makes the "any" walk answer true. |
| KeySetSpec.RepeatedKeyDefeatsSizeCheck | presentation/common/src/KeySet.ts:297-303 | A set holding one key has a size below the length of `[k, k]`, so the size check rejects `hasAll([k, k])`, although the walk alone would accept it. |
| KeySetSpec.AddSet | presentation/common/src/KeySet.ts:149-165 | Merging another set creates a bucket for every class of either set. Each bucket is the old ids plus the other set's ids of that class that the predicate accepts. |
| KeySetSpec.DeleteSet | presentation/common/src/KeySet.ts:204-215 | Subtracting another set keeps every bucket and removes from it that class's ids in the other set. |
| KeySetSpec.MergeStep | presentation/common/src/KeySet.ts:154-164 | After one more class has been merged, only that class's bucket has changed. |
| KeySetSpec.SubtractStep | presentation/common/src/KeySet.ts:207-214 | After one more present class has been subtracted, only that class's bucket has changed. |
| KeySetSpec.SubtractSkip | presentation/common/src/KeySet.ts:208-209 | A class this set lacks is skipped. |
| KeySetSpec.MergeNone | presentation/common/src/KeySet.ts:154 | Before any class is merged, the buckets are the old ones. |
| KeySetSpec.SubtractNone | presentation/common/src/KeySet.ts:207 | Before any class is subtracted, the buckets are the old ones. |
| KeySetSpec.AddKeysStep | presentation/common/src/KeySet.ts:187 | One more array element is skipped if the predicate rejects it, raises if it is unrecognised, and is inserted otherwise. |
| KeySetSpec.DeleteKeysStep | presentation/common/src/KeySet.ts:229-230 | One more array element raises if it is unrecognised, and is removed otherwise. |
| KeySetSpec.AddSetGrows | presentation/common/src/KeySet.ts:149-165 | Merging another set never shrinks the size. |
| KeySetSpec.DeleteSetShrinks | presentation/common/src/KeySet.ts:204-215 | Subtracting another set never grows the size. |
| KeySetSpec.SubsetSize | presentation/common/src/KeySet.ts:270 | A subset is no larger, which is what makes the count check of `hasAll` sound. |
| KeySetSpec.AddSetMembers | presentation/common/src/KeySet.ts:149-165 | Merging adds exactly the other set's members that the predicate accepts. Nothing present is removed. |
| KeySetSpec.DeleteSetMembers | presentation/common/src/KeySet.ts:204-215 | Subtracting removes exactly the other set's members. |
| KeySetSpec.AddSetCreatesEmptyBuckets | presentation/common/src/KeySet.ts:155-163 | A merge whose predicate rejects every id still creates the class bucket, and the size stays 0. |
| KeySetSpec.ContainsAllMembers | presentation/common/src/KeySet.ts:269-281 | "All" containment of another set holds iff its members are members here and each of its buckets exists here. |
| KeySetSpec.SharesAnyMembers | presentation/common/src/KeySet.ts:284-292 | "Any" containment holds iff the two sets share a member. |
| KeySetSpec.EmptyBucketDefeatsHasAll | presentation/common/src/KeySet.ts:270-277 | A set holding only an empty bucket has no members, yet an empty set does not contain it. |
| KeySetSpec.ClassesAppend | presentation/common/src/KeySet.ts:366-369 | Pushing an entry adds its class to the listed classes. |
| KeySetSpec.OverwriteLastWins | presentation/common/src/KeySet.ts:170-171 | When an entry's class does not occur later, loading leaves exactly that entry's ids in the class's bucket. |
| KeySetSpec.OverwriteKeys | presentation/common/src/KeySet.ts:170-171 | Loading entries makes the buckets those already there plus one per listed class. |
| KeySetSpec.RepeatedClassOverwrites | presentation/common/src/KeySet.ts:170-171 | Two entries of the same class do not merge: the later one replaces the earlier. |
| KeySetSpec.LoadJSONValid | presentation/common/src/KeySet.ts:167-172 | Every node string that loading stores parses as a node key. |
| KeySetSpec.AddParsable | presentation/common/src/KeySet.ts:169 | Storing a node key's serialized form keeps every stored string parsable. |
| KeySetSpec.AcceptedNodesAdd | presentation/common/src/KeySet.ts:150-153 | Taking one more node key of the other set adds it exactly when the predicate accepts it. |
| KeySetSpec.NodeStringsSnoc | presentation/common/src/KeySet.ts:168-169 | One more listed node key adds exactly its stored form. |
| KeySetSpec.ParsedIsNew | presentation/common/src/KeySet.ts:370-372 | Parsing a stored string that is not yet listed adds a key that is not yet listed, and adds exactly that string's form. |
| KeySetSpec.RoundTripBuckets | presentation/common/src/KeySet.ts:364-387 | `fromJSON(toJSON(s))` has exactly the non-empty buckets of `s`. |
| KeySetSpec.RoundTrip | presentation/common/src/KeySet.ts:364-387 | `fromJSON(toJSON(s))` has the node keys, the members and the size of `s`, and no empty bucket. It contains `s`'s buckets exactly when `s` has no empty bucket. |
| KeySets.GuidSource.CreateValue | presentation/common/src/KeySet.ts:71 | Each token differs from every earlier one: it is the counter's old value, and the counter moves on. |
| KeySets.SetToSeq | presentation/common/src/KeySet.ts:368 | Spreading a set lists each of its elements exactly once. |
| KeySets.KeySet.RenewIfChanged | presentation/common/src/KeySet.ts:199-200 | The contents stay. The token is renewed, using one value of the source, exactly when the size differs from the one before. |
| KeySets.KeySet.constructor | presentation/common/src/KeySet.ts:68-71 | A new set is empty and takes a token from the generator, which every later token differs from. |
| KeySets.KeySet.Create | presentation/common/src/KeySet.ts:68-74 | A set built from an array or another set has the contents of adding that source to the empty set, with the same outcome. |
| KeySets.KeySet.InstanceKeysCount | presentation/common/src/KeySet.ts:99-103 | The counting loop returns the sum of bucket sizes, which is the number of (class, id) members. |
| KeySets.KeySet.InstanceKeysView | presentation/common/src/KeySet.ts:89-94 | The view has the same classes, each bucket with its ids normalised. |
| KeySets.KeySet.NormalizeAll | presentation/common/src/KeySet.ts:92 | Mapping the normaliser over a bucket gives the set of normalised ids. |
| KeySets.KeySet.NodeKeysView | presentation/common/src/KeySet.ts:111-118 | The view holds exactly the node keys whose stored form is in the set. |
| KeySets.KeySet.NodeKeysCount | presentation/common/src/KeySet.ts:123-125 | The node-key count is the number of node members. |
| KeySets.KeySet.Size | presentation/common/src/KeySet.ts:345-351 | The counting loop returns the size, which is the number of distinct members. |
| KeySets.KeySet.IsEmpty | presentation/common/src/KeySet.ts:356-358 | True iff the size is 0, which is iff there is no member. |
| KeySets.KeySet.Clear | presentation/common/src/KeySet.ts:139-147 | On a set of size 0, nothing changes, neither the contents nor the token. Otherwise both collections are emptied and the token is fresh: it differs from the old one and from every later one. |
| KeySets.KeySet.Add | presentation/common/src/KeySet.ts:180-202 | A single key gets the outcome and contents of the single-key add; an array those of the array add; another set, the merge. The size never shrinks. The token is unchanged iff the size is unchanged; otherwise it is fresh: it differs from the old one and from every later one. |
| KeySets.KeySet.AddOther | presentation/common/src/KeySet.ts:184-185 | Merging another set, and renewing the token exactly when the size changed. |
| KeySets.KeySet.AddSingle | presentation/common/src/KeySet.ts:188-201 | An unrecognised key raises and changes nothing. Otherwise its member is inserted. When the size changed, entity props use two tokens (inner and outer `add`) and other keys one. |
| KeySets.KeySet.StoreKey | presentation/common/src/KeySet.ts:190-195 | An instance key goes into its bucket, created if missing. A node key goes in by its stored form. |
| KeySets.KeySet.AddArray | presentation/common/src/KeySet.ts:186-187 | The contents and outcome are those of the array add. A fresh token is taken when the size changed, on top of those the elements took. |
| KeySets.KeySet.AddEachKey | presentation/common/src/KeySet.ts:186-187 | The `forEach` loop leaves the contents and outcome of the array add, up to and including the first unrecognised key. The token moves only if the size moved. |
| KeySets.KeySet.AddElement | presentation/common/src/KeySet.ts:186 | One element: the array add of one more element, with the token renewed when the size grew. |
| KeySets.KeySet.AddKeySet | presentation/common/src/KeySet.ts:149-165 | The contents become the merge of the other set; the token is untouched. |
| KeySets.KeySet.AddNodeKeys | presentation/common/src/KeySet.ts:150-153 | Exactly the other set's node keys that the predicate accepts are added. |
| KeySets.KeySet.MergeClasses | presentation/common/src/KeySet.ts:154-164 | Every class of the other set is merged: the bucket is created and the accepted ids are added. |
| KeySets.KeySet.AddAccepted | presentation/common/src/KeySet.ts:160-163 | The bucket gains exactly the accepted ids of its class. |
| KeySets.KeySet.Delete | presentation/common/src/KeySet.ts:222-245 | A single key gets the outcome and contents of the single-key delete; an array those of the array delete; another set, the subtraction. The size never grows. The token is unchanged iff the size is unchanged; otherwise it is fresh: it differs from the old one and from every later one. |
| KeySets.KeySet.DeleteOther | presentation/common/src/KeySet.ts:226-227 | Subtracting another set, and renewing the token exactly when the size changed. |
| KeySets.KeySet.DeleteSingle | presentation/common/src/KeySet.ts:231-245 | An unrecognised key raises and changes nothing. Otherwise the queried member, with no id normalisation, is removed. |
| KeySets.KeySet.DropKey | presentation/common/src/KeySet.ts:233-238 | An instance id leaves its bucket if the bucket exists. A node key leaves the node set. |
| KeySets.KeySet.DeleteArray | presentation/common/src/KeySet.ts:228-230 | The contents and outcome are those of the array delete. A fresh token is taken when the size changed. |
| KeySets.KeySet.DeleteEachKey | presentation/common/src/KeySet.ts:228-230 | The `for` loop leaves the contents and outcome of the array delete, up to and including the first unrecognised key. The token moves only if the size moved. |
| KeySets.KeySet.DeleteElement | presentation/common/src/KeySet.ts:229-230 | One element: the array delete of one more element, with the token renewed when the size shrank. |
| KeySets.KeySet.DeleteKeySet | presentation/common/src/KeySet.ts:204-215 | The contents become the subtraction of the other set; the token is untouched. |
| KeySets.KeySet.SubtractClasses | presentation/common/src/KeySet.ts:207-214 | Every class of the other set present here loses that class's ids in the other set. |
| KeySets.KeySet.Without | presentation/common/src/KeySet.ts:210-212 | The bucket loses exactly the given ids. |
| KeySets.KeySet.Has | presentation/common/src/KeySet.ts:251-263 | The lookups answer `has`: true iff the queried member is present; unrecognised values raise. |
| KeySets.KeySet.HasAll | presentation/common/src/KeySet.ts:318-326 | A single key raises. An array answers false when the size is below its length, and the "all" walk otherwise. Another set answers its "all" containment. |
| KeySets.KeySet.HasAny | presentation/common/src/KeySet.ts:332-340 | A single key raises. An array answers the "any" walk. Another set answers whether the two share a member. |
| KeySets.KeySet.HasKeysArrayAll | presentation/common/src/KeySet.ts:295-304 | The size check, then the early-exit loop, give the "all" answer. |
| KeySets.KeySet.HasKeysArrayAny | presentation/common/src/KeySet.ts:306-311 | The early-exit loop gives the "any" answer. |
| KeySets.KeySet.HasKeySetAll | presentation/common/src/KeySet.ts:269-282 | The count checks and the loops over node keys, buckets and ids answer exactly the "all" containment. |
| KeySets.KeySet.HasKeySetAny | presentation/common/src/KeySet.ts:284-292 | The loops answer exactly whether some node key or (class, id) pair is shared. |
| KeySets.KeySet.ToJSON | presentation/common/src/KeySet.ts:364-377 | The JSON lists each non-empty bucket once, with each of its ids once, and each stored node key once, parsed. |
| KeySets.KeySet.InstanceEntries | presentation/common/src/KeySet.ts:365-369 | The entries are the non-empty buckets, each class once, each with its ids listed once. |
| KeySets.KeySet.NodeEntries | presentation/common/src/KeySet.ts:370-372 | The parsed node keys are distinct, and their stored forms are the node set. |
| KeySets.KeySet.AddKeySetJSON | presentation/common/src/KeySet.ts:167-172 | Node keys are added by their stored form. Each listed class has its bucket replaced, not merged. |
| KeySets.KeySet.AddJSONNodes | presentation/common/src/KeySet.ts:168-169 | Exactly the stored forms of the listed node keys are added. The buckets stay. |
| KeySets.KeySet.AddJSONInstances | presentation/common/src/KeySet.ts:170-171 | Each entry in turn replaces its class's bucket with its ids. |
| KeySets.KeySet.FromJSON | presentation/common/src/KeySet.ts:383-387 | The new set is the JSON loaded into an empty set, with a token from the generator, which every later token differs from. |
| ModelSelector.AddOneFacts | core/frontend/src/ModelSelectorState.ts:61 | `Set.add` adds exactly the id, keeps the old ids first, and repeats nothing. |
| ModelSelector.AddAllContents | core/frontend/src/ModelSelectorState.ts:60-62 | After adding ids, the models are the old ones plus the ids, each once. |
| ModelSelector.AddAllKeepsPrefix | core/frontend/src/ModelSelectorState.ts:60-62 | Adding ids keeps the old models first, in their old order. |
| ModelSelector.AddPresentChangesNothing | core/frontend/src/ModelSelectorState.ts:22 | Adding ids already present changes neither the models nor their number. |
| ModelSelector.DropAllContents | core/frontend/src/ModelSelectorState.ts:65-67 | After dropping ids, a model remains iff it was there and is not dropped. Nothing repeats, and the size does not grow. |
| ModelSelector.DropAbsentChangesNothing | core/frontend/src/ModelSelectorState.ts:65-67 | Dropping ids that are absent leaves the models in the same order. |
| ModelSelector.DropTwice | core/frontend/src/ModelSelectorState.ts:66 | Dropping ids one after another is dropping them all at once. |
| ModelSelector.DropAppend | core/frontend/src/ModelSelectorState.ts:66 | Dropping works element-wise, so the survivors keep their relative order. |
| ModelSelector.ElementsPrefix | core/frontend/src/ModelSelectorState.ts:61 | The ids handed over so far grow by one per step. |
| ModelSelector.AddAllSnoc | core/frontend/src/ModelSelectorState.ts:61 | Adding one more id after a list is adding it to the result of the list. |
| ModelSelector.ModelSelectorState.constructor | core/frontend/src/ModelSelectorState.ts:23-27 | The models are the given ones added in order, or none. |
| ModelSelector.ModelSelectorState.AddModels | core/frontend/src/ModelSelectorState.ts:60-62 | Afterwards `has(id)` holds exactly for the ids it held before and the given ids. The old models stay first and in order. Nothing repeats. |
| ModelSelector.ModelSelectorState.AddEach | core/frontend/src/ModelSelectorState.ts:61 | The loop adds each id in turn: the models become the old ones followed by each new id once, in order. |
| ModelSelector.ModelSelectorState.DropModels | core/frontend/src/ModelSelectorState.ts:65-67 | Afterwards `has(id)` holds exactly for the ids it held before that were not given. The surviving models keep their order. |
| ModelSelector.ModelSelectorState.DropOne | core/frontend/src/ModelSelectorState.ts:66 | The loop removes exactly one id and keeps the order of the rest. |
| ModelSelector.ModelSelectorState.Has | core/frontend/src/ModelSelectorState.ts:70 | `has(id)` is true iff the id is one of the models, i.e. occurs at some position of the set. |
| ModelSelector.ModelSelectorState.ContainsModel | core/frontend/src/ModelSelectorState.ts:73 | `containsModel(id)` is `has(id)`, so it is true iff the id is one of the models. |
| ModelSelector.ModelSelectorState.EqualState | core/frontend/src/ModelSelectorState.ts:45-57 | True iff the counts, ids and names agree and the models agree position by position, which is iff the model sequences are identical. |
| ModelSelector.ModelSelectorState.ToJSONModels | core/frontend/src/ModelSelectorState.ts:32-37 | The listed models are the set's models, in iteration order, each once. |
| ModelSelector.OrderMatters | core/frontend/src/ModelSelectorState.ts:49-56 | Two selectors built with the same id and name from the same ids in a different order answer `has` alike, yet `equalState` on them returns false. |
| Textures.ComputeBytesUsed | core/frontend/src/render/webgl/Texture.ts:19-32 | The byte count is 0 exactly when a dimension is 0. It lies between 1 and 16 bytes per pixel. |
| Textures.RgbaBytes | core/frontend/src/render/webgl/Texture.ts:19-32 | RGBA bytes take 4 bytes per pixel. |
| Textures.FloatIsFourBytes | core/frontend/src/render/webgl/Texture.ts:20 | Any data type other than bytes takes four times the bytes. |
| Textures.CubeBytes | core/frontend/src/render/webgl/Texture.ts:74 | A cube map of side `dim` takes `24 * dim * dim` bytes. |
| Textures.GetImageProperties | core/frontend/src/render/webgl/Texture.ts:211-221 | Wrap mode is Repeat iff the type is Normal, and ClampToEdge otherwise. Mipmaps are on iff the type is neither SkyBox nor TileSection. The format is Rgba iff translucent, and Rgb otherwise. Interpolation is always on. |
| Textures.PowerAtLeast | core/frontend/src/render/webgl/Texture.ts:175 | The doubling ends at a power of two in `[n, 2n)`. |
| Textures.NextPowerOfTwo | core/frontend/src/render/webgl/Texture.ts:175 | 0 maps to 0. Otherwise the result is a power of two in `[n, 2n)`, hence the least one ≥ n. |
| Textures.NextPowerOfPower | core/frontend/src/render/webgl/Texture.ts:184-185 | A power of two is left as it is. |
| Textures.PowersBetween | core/frontend/src/render/webgl/Texture.ts:175 | Only one power of two lies in `[a, 2a)`. |
| Textures.TargetForImage | core/frontend/src/render/webgl/Texture.ts:167-209 | Width and height never exceed the size limit. Glyphs, and Normal textures on a system without non-power-of-two support whose size is not a power of two, are rounded up and then capped. Any other image is only capped. The image is redrawn iff the target size differs from its natural size. |
| Textures.RoundedDimensionsArePowersOfTwo | core/frontend/src/render/webgl/Texture.ts:174-192 | With a size limit that is a power of two, rounded dimensions are powers of two. Each fits the image whenever its rounding fits the limit. |
| Textures.CapCanUndoRounding | core/frontend/src/render/webgl/Texture.ts:190-192 | With a limit of 100, a 120-pixel glyph is capped to 100, which is not a power of two. |
| Textures.AcceptedImageIsKept | core/frontend/src/render/webgl/Texture.ts:177-195 | An image the system accepts, and which fits the limit, keeps its size and is not redrawn. |
| Textures.ImagePropertiesKept | core/frontend/src/render/webgl/Texture.ts:177-182 | The properties used are always those of `getImageProperties`. The mipmap switch-off only reaches types that have no mipmaps already. |
| Textures.CreateForCubeImages | core/frontend/src/render/webgl/Texture.ts:235-250 | There are parameters iff all six faces are square with `posX`'s width as their side. Those parameters are that side, Rgba, bytes and ClampToEdge. |
| Textures.Texture2DHandle.constructor | core/frontend/src/render/webgl/Texture.ts:35-36 | The byte count is that of the uploaded data if any, and is computed from the parameters otherwise. |
| Textures.Texture2DHandle.SetBytesUsed | core/frontend/src/render/webgl/Texture.ts:265-269 | The byte count can be set only while it is 0. |
| Textures.Texture2DHandle.Dispose | core/frontend/src/render/webgl/Texture.ts:282-287 | After disposal the GL texture is gone. |
| Textures.Texture2DHandle.Update | core/frontend/src/render/webgl/Texture.ts:361-371 | The texture is re-uploaded (true) iff it has both dimensions, it has non-empty retained bytes, the updater was modified, and it is not disposed. |
| Textures.Texture2DHandle.ReplaceTextureData | core/frontend/src/render/webgl/Texture.ts:374-390 | The upload succeeds iff the GL texture still exists. |
| Textures.TextureCubeHandle.constructor | core/frontend/src/render/webgl/Texture.ts:480-487 | A cube handle's byte count is `24 * dim * dim`. |
| Textures.Texture2DDataUpdater.constructor | core/frontend/src/render/webgl/Texture.ts:491-495 | A new updater is not modified. |
| Textures.Texture2DDataUpdater.SetByteAtIndex | core/frontend/src/render/webgl/Texture.ts:497-502 | An equal value changes nothing. A different value is stored modulo 256 at that index only, and sets `modified`. |
| Textures.Texture2DDataUpdater.SetOvrFlagsAtIndex | core/frontend/src/render/webgl/Texture.ts:504-509 | The same rule for a flags value: an equal value changes nothing; a different one is stored modulo 256 at that index only, and sets `modified`. |
| Textures.WrappedWrite | core/frontend/src/render/webgl/Texture.ts:497-502 | On any updater whose byte at the index is 0, `setByteAtIndex(index, 256)` leaves the buffer as it was, yet marks it modified. |
| Geometry.GeometryList.constructor | core/frontend/src/render/primitives/geometry/GeometryList.ts:13 | A new list is empty. |
| Geometry.GeometryList.First | core/frontend/src/render/primitives/geometry/GeometryList.ts:15 | `first` exists iff the list is non-empty, and is then element 0. |
| Geometry.GeometryList.Length | core/frontend/src/render/primitives/geometry/GeometryList.ts:17 | The length is 0 iff the list is empty. |
| Geometry.GeometryList.IsEmpty | core/frontend/src/render/primitives/geometry/GeometryList.ts:16 | `isEmpty` iff `length` is 0, which is iff there is no `first`. |
| Geometry.GeometryList.Push | core/frontend/src/render/primitives/geometry/GeometryList.ts:18-20 | The element goes at the end, and the new length, one more than before, is returned. |
| Geometry.GeometryList.Append | core/frontend/src/render/primitives/geometry/GeometryList.ts:21-24 | The list becomes the old list followed by the source's old elements, and the list itself is returned. A list appended to itself doubles. |
| Geometry.GeometryList.Clear | core/frontend/src/render/primitives/geometry/GeometryList.ts:25 | Afterwards the length is 0, `isEmpty` holds and there is no `first`. |
| Geometry.GeometryList.Iterator | core/frontend/src/render/primitives/geometry/GeometryList.ts:34-35 | A fresh iterator starts at position 0 over this list. |
| Geometry.GeometryListIterator.Next | core/frontend/src/render/primitives/geometry/GeometryList.ts:36 | Below the end, it yields the element at the position and is not done. Otherwise it is done, with the last element right after the end and nothing further on. The position always advances. |
| Geometry.Elements | core/frontend/src/render/primitives/geometry/GeometryList.ts:34-37 | Iterating until done yields exactly the list's elements in index order. |
| EnumConverter.FirstMatch | ui/components/src/ui-components/converters/EnumTypeConverter.ts:29-35 | The position is -1 or an index of the choices. |
| EnumConverter.FirstMatchMeaning | ui/components/src/ui-components/converters/EnumTypeConverter.ts:29-35 | The position is -1 iff no choice matches. Otherwise that choice matches and no earlier one does. |
| EnumConverter.GetPosition | ui/components/src/ui-components/converters/EnumTypeConverter.ts:29-35 | The loop returns -1 iff no choice's value equals the value. Otherwise it returns the least matching index. |
| EnumConverter.FirstIsFirstMatch | ui/components/src/ui-components/converters/EnumTypeConverter.ts:30-33 | The first matching index is the one the loop stops at. |
| EnumConverter.ConvertPropertyToString | ui/components/src/ui-components/converters/EnumTypeConverter.ts:16-27 | An absent value gives "". A value matching a choice gives the label of the first matching choice. Otherwise the base conversion is used. |
| EnumConverter.ShadowedChoice | ui/components/src/ui-components/converters/EnumTypeConverter.ts:30-33 | A later choice with the same value as an earlier one is never found. |

## Left out

- The JSON text itself. Node keys are stored through an injective, invertible text code rather than `JSON.stringify`. `NodeKey.fromJSON` is the identity on the parsed key. A node key keeps only its type, its `pathFromRoot` and the fields the key classification probes; any other field a key object carries is dropped. So two key objects that differ only in such fields, or in the order `JSON.stringify` would list their fields, are the same key here, while the source could store them as two strings.
- `Id64.fromJSON`: modelled by a stand-in that lower-cases ASCII letters and maps "" to "0". The stand-in does not drop leading zeros (the real function turns "0x01" into "0x1") and does not map ids that are not hexadecimal to "0".
- NodeKeys.NormalizeId: its clause that a non-empty id keeps its length holds for the stand-in only, not for the real `Id64.fromJSON`.
- `Guid.createValue`: modelled by a counter. A fresh counter value stands for a new GUID. Randomness is not modelled.
- KeySet classification of containers: a value is a KeySet or an array by its Dafny variant, not by duck-typing `_nodeKeys`/`_instanceKeys` or `Array.isArray`. Arrays hold single keys only; nested arrays and sets inside arrays are not modelled.
- KeySets.KeySet.Create: takes an array or another set, as the constructor's declared type says. A single key is not accepted as a source.
- A falsy argument to `add`, `delete`, `hasAll` or `hasAny`: only single keys can be falsy in the model (for `add` and `delete`). An absent array or set is not representable.
- The key predicate is a total function on keys. A predicate that throws is not modelled.
- Exceptions are results: `InvalidArgument` stands for the thrown `PresentationError`. The state left by a throw part-way through an array is the state after the elements before it. The token is not renewed then, as `add` never reaches its size check.
- ModelSelectorState: the rest of its element state, `load` (asynchronous model loading) and `className`. `toJSON` is modelled only for its `models` list. `containsModel` is `has` of the id, since an id's string form is the id.
- Texture.ts: all WebGL calls and canvas drawing. This covers texture creation (its null case included), binding, uploads and `getDataType`'s `instanceof` test. The capability record is a parameter.
- `RenderTexture.Type` is taken to have exactly Normal, Glyph, TileSection and SkyBox. GL enum constants are datatype values.
- Textures.NextPowerOfTwo: the 32-bit or-shift trick is replaced by its arithmetic meaning. Inputs above 2^31, where the trick wraps around, are not modelled.
- Textures.Texture2DHandle.SetBytesUsed: the development-build `assert` is a precondition. Release builds overwrite silently.
- Textures.Texture2DDataUpdater.SetByteAtIndex: the index assertion is a precondition. Writes outside the buffer are not modelled, and neither are non-integer values.
- Textures.Texture2DDataUpdater.SetOvrFlagsAtIndex: the same; the flags value is any integer, not only an `OvrFlags` combination.
- Textures.Texture2DHandle.Update: the `assert(false)` on a texture without data is modelled as its release-build `return false`.
- Texture2DDataUpdater.GetByteAtIndex and GetFlagsAtIndex are plain reads, with no contract to state.
- GeometryList: `computeRange` and `computeQuantizationParams`, which are floating-point range arithmetic. Elements are of any type `G`.
- EnumTypeConverter: `sortCompare` (numeric coercion with NaN and float subtraction) and the registration with the converter manager. Numeric enum values are integers.
