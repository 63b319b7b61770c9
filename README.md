# Label Studio output conversion scripts, modelled in Dafny

This project models the logic of the scripts in convert-labelstudio-outputs
(Python). These scripts turn Label Studio annotation exports into image
masks and prepare a fire-segmentation dataset. Six modules, one per script
plus a string module they share:

- `Text` (text.dfy): the Python string operations the scripts use. It covers
  `startswith`/`endswith`, slices such as `s[:-4]` and `s[-4:]`,
  `split('/')`, `os.path.basename`, the root from `os.path.splitext`, and
  `str.replace`. It also proves lemmas about where a pattern does and does
  not occur.
- `BrushComposite` (brush_composite.dfy): `generate_composite_mask_png`.
  The loaded brush fragments are folded by element-wise maximum. The result
  is cast to 8 bits and scaled to 0/255 when it is binary.
- `BrushGrouping` (brush_grouping.dfy): the grouping and the per-group loop
  of `batch_process_masks`.
  - The fragment-name regular expression is a field parser with a proved
    round trip.
  - Names are grouped in dictionary insertion order.
  - The task id becomes the output name.
  - The loop aborts on a zero-size mask and counts the masks it saves.
- `BrushRename` (brush_rename.dfy): `get_filename_mapping` (id to image file
  name) and `rename_masks`. A directory is modelled as a map from file name
  to contents.
- `PolygonMasks` (polygon_masks.dfy): `convert_label_studio_json_to_masks`.
  It covers which tasks get a mask, the percent-to-pixel conversion, the
  canvas size and the mask file name. Both dimensions are read from every
  polygon result before they are checked, so the canvas takes the size of
  the last polygon result. If that result has no width, the mask is
  discarded. If it has a width but no height, `np.zeros` fails.
- `Sampling` (sampling.dfy): divide_images_into_subdirectories.py. It covers
  the proportional quotas with Python's round-half-to-even, the stride
  selection, the copies into the dataset directory, and the split of the
  sorted copies among three people.
- `CropPairs` (crop_pairs.dfy): crop_and_resize_images.py. It covers the two
  square crop boxes, the crop file names, and the output tree built step by
  step. An all-black mask crop is not saved, and the image crop it pairs
  with is removed instead.

Where the source changes state step by step, the model has a `method` with
the same loops. Each such method is proved equal to a function defined by
recursion on the prefix of its input. The properties are proved as lemmas
about that function.

Directory listings, JSON documents and loaded arrays are inputs. File
contents are abstract values. Writing a PNG is modelled as the array, or
the crop, that would be written.

## Model

| member | source | states |
|---|---|---|
| Text.Basename | magicwand-coco-brush-to-png-masks/script.py:155 | the result has no '/', is a suffix of the path, and is preceded by '/' unless it is the whole path |
| Text.LastSplitPartIsBasename | convert-labelstudio-outputs/polygon-json-to-png-masks/script.py:71 | the last part of `split('/')` is the basename |
| Text.RootOfPngName | magicwand-coco-brush-to-png-masks/script.py:177 | the `splitext` root of a ".png" name drops exactly ".png", unless all that precedes it is dots |
| Text.SplitExtRejoins | magicwand-coco-brush-to-png-masks/script.py:177 | the `splitext` root of the last path component followed by the extension gives that component back |
| Text.ExtensionOfBasename | crop_and_resize_images.py:57-58 | only the last path component decides the extension |
| Text.ExtensionOfTail | crop_and_resize_images.py:54-58 | a path that ends in a dot, then text without dots or '/', after a character that is neither has exactly that tail as its extension |
| Text.NoExtensionAfterSlash | crop_and_resize_images.py:54-58 | a last path component without a dot has no extension |
| Text.ReplaceOnly | crop_and_resize_images.py:39-40 | `replace` of a pattern that occurs once substitutes that one occurrence |
| BrushComposite.ElementMax | magicwand-coco-brush-to-png-masks/script.py:38 | `np.maximum`: same shape, and each cell is the larger of the two cells |
| BrushComposite.ToUint8 | magicwand-coco-brush-to-png-masks/script.py:43 | the uint8 cast lies in [0, 256), keeps byte values, and is congruent to its input modulo 256 |
| BrushComposite.CastToUint8 | magicwand-coco-brush-to-png-masks/script.py:43 | `astype(np.uint8)` keeps the shape and casts every cell |
| BrushComposite.Scale | magicwand-coco-brush-to-png-masks/script.py:45-49 | if every cell is at most 1, then 1 becomes 255, 0 stays 0, and only {0, 255} occur; otherwise the mask is unchanged |
| BrushComposite.Finish | magicwand-coco-brush-to-png-masks/script.py:43-49 | `np.max` raises exactly on a zero-size mask; otherwise the mask written has the master mask's shape and only values in [0, 256) |
| BrushComposite.FirstPlane | magicwand-coco-brush-to-png-masks/script.py:26-31 | the index of the first fragment loaded as a 2-D array; none before it was |
| BrushComposite.CompositeMask | magicwand-coco-brush-to-png-masks/script.py:13-15 | `None` for an empty path list exactly, and for a non-empty list exactly when no fragment loads as a 2-D array; a zero-size error needs a 2-D fragment; a written mask has the shape of the first 2-D fragment |
| BrushComposite.CombineIsElementwiseMax | magicwand-coco-brush-to-png-masks/script.py:19-38 | the combined mask is absent exactly without a 2-D fragment; otherwise each cell is at least that cell of every accepted fragment (the first 2-D one and later ones of its shape) and equals it for one of them |
| BrushComposite.GenerateCompositeMask | magicwand-coco-brush-to-png-masks/script.py:13-49 | the loop, cast and scaling compute exactly CompositeMask |
| BrushComposite.BinaryFragmentsGiveOr | magicwand-coco-brush-to-png-masks/script.py:37-49 | for 0/1 fragments the written mask is the logical OR of the accepted fragments, as 255 on 0 |
| BrushComposite.TwoFragmentExample | magicwand-coco-brush-to-png-masks/script.py:37-49 | [[1,0],[0,0]] and [[0,0],[0,1]] give [[255,0],[0,255]] |
| BrushGrouping.RunLength | magicwand-coco-brush-to-png-masks/script.py:84 | the greedy `\d+` / `[A-Za-z0-9_]+` run is maximal: all in class, and the next character is not |
| BrushGrouping.ParseRenderFields | magicwand-coco-brush-to-png-masks/script.py:84 | parsing the rendering of fields that fit the pattern gives those fields back |
| BrushGrouping.RenderParseFields | magicwand-coco-brush-to-png-masks/script.py:84 | a parsed string is the rendering of its fields, and they fit the pattern |
| BrushGrouping.ParseRender | magicwand-coco-brush-to-png-masks/script.py:84-89 | a valid fragment name renders to a file name that matches and parses back to it |
| BrushGrouping.RenderParse | magicwand-coco-brush-to-png-masks/script.py:84-89 | every matching file name is the rendering of a valid fragment name |
| BrushGrouping.MatchEndsWithNpy | magicwand-coco-brush-to-png-masks/script.py:87-89 | a matching name ends with ".npy", so the `endswith` filter never rejects a match |
| BrushGrouping.KeyIsNameWithoutIndex | magicwand-coco-brush-to-png-masks/script.py:84 | the group key is the file name without its trailing `-<digits>.npy` |
| BrushGrouping.TaskIdOfGroupKey | magicwand-coco-brush-to-png-masks/script.py:107 | `key.split('-')[1]` of a key is exactly the task digits |
| BrushGrouping.KeyOfMatch | magicwand-coco-brush-to-png-masks/script.py:89-110 | a grouped file's key is the key of its parsed name, and its group writes `<task digits>.png` |
| BrushGrouping.SameTaskSameOutput | magicwand-coco-brush-to-png-masks/script.py:107-111 | two groups of one task write the same output file |
| BrushGrouping.MembersOf | magicwand-coco-brush-to-png-masks/script.py:93-95 | exactly the names with the given key, and none when no name has it |
| BrushGrouping.GroupKeysOccur | magicwand-coco-brush-to-png-masks/script.py:86-95 | the groups are exactly the keys of the matching names |
| BrushGrouping.GroupOrderListsKeys | magicwand-coco-brush-to-png-masks/script.py:93-94 | the dictionary order lists every group once |
| BrushGrouping.GroupMembers | magicwand-coco-brush-to-png-masks/script.py:93-95 | each group holds exactly the names with its key, in listing order |
| BrushGrouping.EachNameInOneGroup | magicwand-coco-brush-to-png-masks/script.py:86-95 | a name is in a group exactly when it has that group's key; a matching name has a group |
| BrushGrouping.GroupFragmentFiles | magicwand-coco-brush-to-png-masks/script.py:80-95 | the grouping loop computes exactly GroupAll |
| BrushGrouping.GroupKeysNamed | magicwand-coco-brush-to-png-masks/script.py:107 | every group key has a part after its first '-' |
| BrushGrouping.Loaded | magicwand-coco-brush-to-png-masks/script.py:19-21 | one loaded fragment per path, in order |
| BrushGrouping.GroupOutcomes | magicwand-coco-brush-to-png-masks/script.py:106-115 | one composite outcome per group, from that group's files |
| BrushGrouping.RunAbortsOnZeroSize | magicwand-coco-brush-to-png-masks/script.py:46 | the batch aborts exactly when some group's mask has zero size |
| BrushGrouping.RunWritesEverySaved | magicwand-coco-brush-to-png-masks/script.py:110-117 | every group whose mask is saved has its output file written |
| BrushGrouping.RunWritesOnlySaved | magicwand-coco-brush-to-png-masks/script.py:110-117 | every written file is the output name of a group whose mask is saved, and holds the mask of the last such group in dictionary order |
| BrushGrouping.RunCountsSaved | magicwand-coco-brush-to-png-masks/script.py:115-117 | the processed count is the number of groups whose mask is saved |
| BrushGrouping.RunStaysAborted | magicwand-coco-brush-to-png-masks/script.py:106-117 | after an abort, later groups change nothing |
| BrushGrouping.BatchProcess | magicwand-coco-brush-to-png-masks/script.py:80-117 | without a matching file nothing is written and the count is 0; otherwise the loop computes exactly RunOutcomes over the groups in dictionary order |
| BrushGrouping.RunGroups | magicwand-coco-brush-to-png-masks/script.py:103-117 | the loop over the groups computes exactly RunOutcomes of the groups' composites, in order |
| BrushRename.Digits | magicwand-coco-brush-to-png-masks/script.py:149 | `str` of a natural number: decimal digits, without a leading zero |
| BrushRename.IdTextEmpty | magicwand-coco-brush-to-png-masks/script.py:149-153 | `str(task.get("id"))` is false exactly for an empty string id; an absent id gives "None" |
| BrushRename.MappingKeys | magicwand-coco-brush-to-png-masks/script.py:148-156 | the keys are exactly the ids of tasks with a non-empty id text and image |
| BrushRename.MappingLastWins | magicwand-coco-brush-to-png-masks/script.py:156 | a key maps to the basename of the image of the last task with that id |
| BrushRename.MappingValuesAreNames | magicwand-coco-brush-to-png-masks/script.py:155 | every value is a file name without '/' |
| BrushRename.TaskWithoutId | magicwand-coco-brush-to-png-masks/script.py:149-156 | a task without an id is mapped under the key "None" |
| BrushRename.GetFilenameMapping | magicwand-coco-brush-to-png-masks/script.py:145-158 | the loop computes exactly MappingOf |
| BrushRename.Target | magicwand-coco-brush-to-png-masks/script.py:175-190 | a rename is planned exactly for a ".png" file whose root is a key and whose new name differs from it; the new name ends in ".png" |
| BrushRename.TaskIdIsStem | magicwand-coco-brush-to-png-masks/script.py:176-179 | a digit name `<id>.png` has root `<id>` |
| BrushRename.RenameMasks | magicwand-coco-brush-to-png-masks/script.py:174-201 | the loop computes exactly RenameAll |
| BrushRename.SourcesStayUntilTheirTurn | magicwand-coco-brush-to-png-masks/script.py:174-193 | a listed file is still present when its turn comes |
| BrushRename.EveryPlannedRenameCounts | magicwand-coco-brush-to-png-masks/script.py:188-195 | the counter equals the number of planned renames |
| BrushRename.UntouchedUnchanged | magicwand-coco-brush-to-png-masks/script.py:175-201 | a file that no planned rename has as source or target keeps its presence and contents |
| BrushRename.TargetsArePresent | magicwand-coco-brush-to-png-masks/script.py:193 | a planned target that is no planned source is present at the end |
| BrushRename.TargetsHoldContents | magicwand-coco-brush-to-png-masks/script.py:174-195 | the target of the last rename planned to it holds, at the end, what that rename's source held at the start, when the source is no planned target and the target no planned source |
| BrushRename.KeepsContents | magicwand-coco-brush-to-png-masks/script.py:193 | renames that neither come from nor go to a file leave its contents as they were |
| BrushRename.StaysPresent | magicwand-coco-brush-to-png-masks/script.py:193 | a file present after some prefix of the listing, and no planned source, stays present to the end |
| BrushRename.SourcesAreGone | magicwand-coco-brush-to-png-masks/script.py:193 | a renamed source that is no planned target is gone at the end |
| BrushRename.StaysAbsent | magicwand-coco-brush-to-png-masks/script.py:193 | a file absent after some prefix of the listing, and no planned target, stays absent to the end |
| BrushRename.RenameMovesContents | magicwand-coco-brush-to-png-masks/script.py:193-195 | a rename moves the source's contents to the target, removes the source, counts one, and leaves the presence of every other file as it was |
| PolygonMasks.Trunc | convert-labelstudio-outputs/polygon-json-to-png-masks/script.py:56-57 | `int()` truncates toward zero |
| PolygonMasks.PixelEnds | convert-labelstudio-outputs/polygon-json-to-png-masks/script.py:56-57 | 0 % maps to pixel 0 and 100 % to the full dimension |
| PolygonMasks.PixelBounds | convert-labelstudio-outputs/polygon-json-to-png-masks/script.py:56-57 | a point within 0-100 % lands within 0..dimension |
| PolygonMasks.PixelMonotone | convert-labelstudio-outputs/polygon-json-to-png-masks/script.py:56-57 | the conversion preserves order |
| PolygonMasks.Converted | convert-labelstudio-outputs/polygon-json-to-png-masks/script.py:54-58 | one vertex per point, in order, each converted on its own axis |
| PolygonMasks.ConvertPoints | convert-labelstudio-outputs/polygon-json-to-png-masks/script.py:54-58 | the loop produces exactly those vertices |
| PolygonMasks.LastPolygon | convert-labelstudio-outputs/polygon-json-to-png-masks/script.py:42-46 | absent exactly without a polygon result; otherwise a polygon result with none after it |
| PolygonMasks.LastPolygonIndex | convert-labelstudio-outputs/polygon-json-to-png-masks/script.py:42-46 | -1 or the position of a polygon result, with no polygon result after it |
| PolygonMasks.ScanResultsAppend | convert-labelstudio-outputs/polygon-json-to-png-masks/script.py:39-40 | scanning a concatenation is scanning one part after the other |
| PolygonMasks.ScanAllIsFlatScan | convert-labelstudio-outputs/polygon-json-to-png-masks/script.py:39-40 | the nested loops scan the results of all annotations in order |
| PolygonMasks.ScanCollects | convert-labelstudio-outputs/polygon-json-to-png-masks/script.py:42-60 | the polygons collected are those of the results of type polygonlabels with both dimensions, in order |
| PolygonMasks.ScanDimensions | convert-labelstudio-outputs/polygon-json-to-png-masks/script.py:45-46 | the dimensions are those of the last polygon result, present or not, and unchanged without one |
| PolygonMasks.Zeros | convert-labelstudio-outputs/polygon-json-to-png-masks/script.py:65 | `np.zeros((H, W))`: H rows of W zeros |
| PolygonMasks.MaskFilenameIsBasename | convert-labelstudio-outputs/polygon-json-to-png-masks/script.py:71 | the mask is named `<image file name>_mask.png` |
| PolygonMasks.MaskWrittenIff | convert-labelstudio-outputs/polygon-json-to-png-masks/script.py:26-73 | a mask is written exactly when the task has an image and annotations, some polygon is collected, and the last polygon result has positive width and height (a zero one gives an empty image, which `cv2.imwrite` refuses); it holds every collected polygon on a canvas of that size |
| PolygonMasks.ContributionIsPolygon | convert-labelstudio-outputs/polygon-json-to-png-masks/script.py:42-60 | a collected polygon implies a polygon result |
| PolygonMasks.LastWithoutWidthWritesNothing | convert-labelstudio-outputs/polygon-json-to-png-masks/script.py:45-49 | a last polygon result without a width discards the polygons collected before it |
| PolygonMasks.SameImageNameSameMask | convert-labelstudio-outputs/polygon-json-to-png-masks/script.py:71-73 | images with the same file name write the same mask file |
| PolygonMasks.ConvertTask | convert-labelstudio-outputs/polygon-json-to-png-masks/script.py:26-74 | the task body computes exactly Outcome |
| PolygonMasks.ExportWrites | convert-labelstudio-outputs/polygon-json-to-png-masks/script.py:23-74 | without a crashing task, a file is written for every task with a mask, and each file holds the mask of the last task in the export with that name |
| PolygonMasks.CrashStops | convert-labelstudio-outputs/polygon-json-to-png-masks/script.py:65-73 | a task whose canvas cannot be made or written stops the run; nothing afterwards is written |
| PolygonMasks.ConvertLabelStudioJsonToMasks | convert-labelstudio-outputs/polygon-json-to-png-masks/script.py:23-74 | the task loop computes exactly ExportAll |
| Sampling.RoundDiv | divide_images_into_subdirectories.py:32 | `round(a / b)`: within half of b of a, and a tie goes to the even result |
| Sampling.SmallShareGetsNothing | divide_images_into_subdirectories.py:32 | a subdirectory with under half an image's share gets quota 0 |
| Sampling.EmptyGetsNothing | divide_images_into_subdirectories.py:32 | an empty subdirectory gets quota 0 |
| Sampling.Error | divide_images_into_subdirectories.py:32 | each rounding is off by at most half |
| Sampling.ErrorSumIsDifference | divide_images_into_subdirectories.py:17-32 | the summed error is the shortfall of the quota total against QUANTITY, scaled by the total |
| Sampling.ErrorSumBound | divide_images_into_subdirectories.py:17-32 | the summed error is at most half a unit per subdirectory |
| Sampling.QuotaTotalNearQuantity | divide_images_into_subdirectories.py:17-32 | the quotas add up to QUANTITY within half an image per subdirectory, not always exactly |
| Sampling.SevenEqualSubdirectories | divide_images_into_subdirectories.py:32 | seven equal subdirectories get 51 each, 357 in all instead of 360 |
| Sampling.Stride | divide_images_into_subdirectories.py:33-34 | one index per selected image, `int(i * step)` |
| Sampling.StrideBounds | divide_images_into_subdirectories.py:33-34 | the indices are within the listing, start at 0, and do not decrease |
| Sampling.StrideDistinct | divide_images_into_subdirectories.py:33-34 | when the quota is at most the file count, the picked files are distinct |
| Sampling.StrideRepeats | divide_images_into_subdirectories.py:33-34 | with a quota above the file count a file is picked twice |
| Sampling.Counts | divide_images_into_subdirectories.py:17 | one file count per subdirectory |
| Sampling.QuotaNeedsFiles | divide_images_into_subdirectories.py:32-33 | a positive quota needs a file |
| Sampling.Picked | divide_images_into_subdirectories.py:34-38 | the i-th copy is named `video<subdir>-<file at index i>` |
| Sampling.CopySelection | divide_images_into_subdirectories.py:16-39 | with no subdirectories nothing is copied; with subdirectories but no files the proportions divide by zero; otherwise the loops compute exactly CopyAll, which fails at the first zero quota |
| Sampling.TotalFiles | divide_images_into_subdirectories.py:17-18 | the total is the sum of the subdirectories' file counts |
| Sampling.CopyEach | divide_images_into_subdirectories.py:28-39 | with a positive total the selection loop computes exactly CopyAll, ending at the first zero quota |
| Sampling.CopyPicked | divide_images_into_subdirectories.py:34-39 | copying adds exactly the picked names |
| Sampling.CopyStopsAfter | divide_images_into_subdirectories.py:28-39 | once a quota of 0 has stopped the run, later subdirectories cannot resume it |
| Sampling.CopiesComeFromSubdirs | divide_images_into_subdirectories.py:34-39 | every copy names a file of some subdirectory |
| Sampling.Slice | divide_images_into_subdirectories.py:53 | `s[lo:hi]` clamps to the end |
| Sampling.SharesConsecutive | divide_images_into_subdirectories.py:44-53 | the three shares are the first 3 * (QUANTITY // 3) copies, in order |
| Sampling.SharesDisjoint | divide_images_into_subdirectories.py:44-53 | of distinct names the shares are pairwise disjoint, and later names are in none |
| Sampling.MoveAll | divide_images_into_subdirectories.py:53-56 | moving a slice puts exactly its names in the person's directory and takes them out of the destination |
| Sampling.DivideAmongPeople | divide_images_into_subdirectories.py:43-56 | person k gets exactly share k; the destination keeps the copies in no share |
| Sampling.CopiesDivided | divide_images_into_subdirectories.py:43-56 | of a listing naming each copy once, each share is a set of copies as large as its slice, the shares are pairwise disjoint, and shares plus what stays in the destination are exactly the copies |
| Sampling.SliceOfDistinct | divide_images_into_subdirectories.py:53 | a slice of distinct names has as many names as its length, all from the whole |
| Sampling.DivideImages | divide_images_into_subdirectories.py:12-56 | the script stops exactly when the selection does; otherwise the people and the destination are the shares of the sorted listing of the copies made |
| Sampling.MovePerson | divide_images_into_subdirectories.py:45-56 | one pass of the person loop moves exactly share `index`: the destination afterwards keeps the copies outside the first index + 1 shares, and the person's directory holds that share |
| CropPairs.CropBox | crop_and_resize_images.py:31-35 | both boxes are h x h squares of full height at the left and right edges; a box lies inside the image exactly when w >= h |
| CropPairs.CropBoxesCoincide | crop_and_resize_images.py:34-35 | the two boxes are the same exactly when the image is square |
| CropPairs.CropBoxesCover | crop_and_resize_images.py:34-35 | for an image at least as wide as tall, a column is in a box exactly when it is among the first h or the last h columns, so every column is covered when w <= 2h |
| CropPairs.ImageCropName | crop_and_resize_images.py:54-55 | `name[:-4] + tag + name[-4:]` is two characters longer and keeps the last four characters at the end |
| CropPairs.ImageCropNameInjective | crop_and_resize_images.py:54-58 | two crop names are equal exactly for the same image and the same side, so each image yields two outputs of its own |
| CropPairs.ImageCropNameOfJpg | crop_and_resize_images.py:54-55 | for a ".jpg" image the tag sits between stem and extension |
| CropPairs.MaskCropNameOfPair | crop_and_resize_images.py:39-40 | the crop name of an image's mask is the crop name of the image followed by "_mask.png" |
| CropPairs.RenameMasksDir | crop_and_resize_images.py:44 | `replace('masks', 'images')` renames only the directory |
| CropPairs.DropMaskSuffix | crop_and_resize_images.py:44 | `replace('_mask.png', '')` drops only the final suffix |
| CropPairs.PairedPathRoundTrip | crop_and_resize_images.py:39-55 | the path removed for a black mask crop is exactly the path of the paired image crop, when "masks" and "_mask.png" occur nowhere else |
| CropPairs.MaskCropPathInjective | crop_and_resize_images.py:39-40 | mask crop paths identify mask and side |
| CropPairs.CrashedStays | crop_and_resize_images.py:44-50 | once `os.remove` has raised, the rest of the listing changes nothing |
| CropPairs.SaveCrop | crop_and_resize_images.py:46-58 | `save` fails exactly when the lower-cased extension of the path has no writer; otherwise the crop is stored under the path and nothing else changes |
| CropPairs.JpgCropSavable | crop_and_resize_images.py:54-57 | the crops of a ".jpg" image have extension ".jpg", which has a writer |
| CropPairs.MaskCropSavable | crop_and_resize_images.py:39-46 | the crops of a well-named mask have extension ".png", which has a writer |
| CropPairs.UndottedCropNotSavable | crop_and_resize_images.py:54-58 | the crops of an image named without a dot have no extension, and `save` refuses them |
| CropPairs.SaveOrPrune | crop_and_resize_images.py:42-52 | a crop that is not black is saved, failing exactly when its extension has no writer; a black one removes the paired image path and fails exactly when that path is missing |
| CropPairs.ProcessFile | crop_and_resize_images.py:30-58 | the loop body computes exactly FileRun |
| CropPairs.ProcessDir | crop_and_resize_images.py:27-60 | the file loop computes exactly DirRun |
| CropPairs.CropAndResizeImages | crop_and_resize_images.py:12-60 | the script computes exactly Script: "images" first, then "masks", into an emptied tree |
| CropPairs.ImagePass | crop_and_resize_images.py:53-58 | the image pass fails exactly when some image crop path has an extension without a writer; otherwise it adds exactly both crops of every image |
| CropPairs.ImageFileStep | crop_and_resize_images.py:53-58 | one image fails exactly when one of its crop paths has no writer; otherwise both crops are stored under their paths |
| CropPairs.JpgImagesSavable | crop_and_resize_images.py:53-58 | images named "*.jpg" never make the image pass fail |
| CropPairs.UnsavableImageStopsScript | crop_and_resize_images.py:24-58 | an image crop without a writer stops the script in the image pass, and the mask pass never runs |
| CropPairs.ImagePassContents | crop_and_resize_images.py:34-35 | after it each image crop path holds its own image's crop with its side's box |
| CropPairs.InPruned | crop_and_resize_images.py:42-50 | an image crop is pruned exactly when a mask of that image is black on that side |
| CropPairs.InMaskKeys | crop_and_resize_images.py:42-52 | a mask crop is among the saved ones exactly when it is not black |
| CropPairs.MaskPass | crop_and_resize_images.py:38-52 | when the pruned crops are present, the mask pass never fails, removes exactly the pruned image crops and adds exactly the non-black mask crops |
| CropPairs.PairedDatasetIsPruned | crop_and_resize_images.py:24-58 | when every image crop path has an extension with a writer and every mask with a black crop has its image, the script does not fail and ends with the image crops minus the pruned ones plus the non-black mask crops |
| CropPairs.MaskCropSavedIff | crop_and_resize_images.py:42-52 | on such a dataset a mask crop is saved exactly when its largest value is above 0 |
| CropPairs.ImageCropKeptIff | crop_and_resize_images.py:42-50 | on such a dataset an image crop survives exactly when no mask of that image is black on that side |
| CropPairs.MasksAloneKeepMaskCrops | crop_and_resize_images.py:38-52 | from an empty tree the mask pass leaves only non-black mask crops |
| CropPairs.BlackMaskAloneCrashes | crop_and_resize_images.py:24-50 | without the image pass a black mask crop makes `os.remove` fail, which is why images go first |

## Left out

- Reading files is left out, and so is writing them. This covers
  `np.load`, `json.load`, `Image.open`, PNG saving, `cv2.imwrite`,
  `shutil.copy`/`move`/`rmtree` and `os.makedirs`. Their results are
  inputs, and directories are sets or maps of names.
- The order `os.listdir` returns is an input sequence. Where the scripts
  sort the listing, the input is taken as already sorted.
- `print` output and progress counters other than the counts the functions
  keep are left out.
- Pixel content from `cv2.fillPoly` (filling with `label_value` 255,
  convert-labelstudio-outputs/polygon-json-to-png-masks/script.py:6 and 68),
  PIL `crop` and `resize`: a mask job carries the canvas and the polygons, and a crop carries its source and
  box. For a mask, the largest pixel value of each resized crop is given
  with the file. `getextrema()[1]` is taken to be that of a one-band
  image. For an RGB mask it would be a band tuple, never equal to 0.
- A PIL crop box outside the image is not an error in PIL (PIL pads it).
  The model only records the box.
- Floating point is not modelled. Percent scaling, proportions, quotas and
  stride are exact `real`/integer arithmetic. The result may differ from
  IEEE rounding at boundaries, for instance `int(i * step)` landing just
  below an integer.
- Python's `\d` also matches non-ASCII digits. Here `\d` is ASCII digits,
  and `[A-Za-z0-9_]` is taken literally.
- BrushRename.RenameMasks: uses POSIX rename semantics (an existing target
  is replaced). The Windows `FileExistsError` branch is not modelled. The
  branch for a missing source is modelled, and it never fires for a
  listing of distinct present files.
- rename_masks on a mask directory that does not exist
  (magicwand-coco-brush-to-png-masks/script.py:168-170) is not modelled:
  the model starts from the directory's contents.
- batch_process_masks on an input directory that does not exist, and its
  choice of output directory (lines 65-75), are left out as I/O.
- A fragment that fails to load is the value `Unreadable`. The exception
  types are not modelled.
- A PNG save that fails (lines 51-58) is left out: `Saved` is the array
  handed to the writer.
- get_filename_mapping when the JSON cannot be read or decoded (lines
  132-143) is left out. The mapping is built from decoded tasks.
- Ids are absent, integers or strings. `str()` of other JSON values (floats,
  lists) is not modelled.
- Polygon results take `original_width` and `original_height` as integers
  or absent. Other JSON values are not modelled. A result without
  `value.points` (a KeyError) is not modelled either: points are always
  present.
- The `__main__` wiring and the hard-coded path constants are left out,
  including the `if filename_map:` guard before renaming.
- CropPairs.Join: `os.path.join` is modelled for an output root without a
  trailing '/' and names without a leading '/'.
- resize_images.py is left out: it is a library resize and a save under the
  same name, with no logic of its own.
- copy_natan_images_to_dataset.py is left out. Its one `replace` is an
  instance of Text.ReplaceAll.
- Sampling.CopyName: two subdirectories whose copy names collide simply
  overwrite each other in the destination set. The model does not say
  which copy wins.
- CropPairs.SaveExtensions: the writer list is that of the plugins built
  into Pillow 10. Other Pillow versions, and plugins registered at run time,
  differ.
- Text.Lower folds ASCII letters only. Python's `lower` folds all of
  Unicode, but every listed extension is ASCII.
- CropPairs.SaveCrop: only the extension lookup is modelled. Errors that
  the writer itself raises (an RGBA crop saved as JPEG, a full disk) are
  left out.
