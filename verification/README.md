# libyazzy-preload: a verified model

A Dafny 4.11 model of the parts of libyazzy-preload that carry state or parse text, with proofs about them:

* **the recycle bin** of `src/recyclix.c`: the parser of `RECYCLER`, the choice of a bin, the walk to the
  mount point, the recursive clone of directories and the move, run on a directory tree with devices, inode
  numbers and symbolic links;
* **the out-of-band address table** of `src/oob-proxy-socket-address-info*.c`;
* **the in-place path rewriting** of `src/pathrewrite.c`;
* **the list loops and the decision** of `connect` in `src/autossl.c`.

`dafny verify dfyconfig.toml` checks everything.

## How it is built

| file | contents |
|---|---|
| `Text.dfy` | splitting, C strings in buffers, `strtol` and `atoi` |
| `SizeLimit.dfy`, `BinConfig.dfy` | the size option; items, `~/`, options cut in place |
| `PathText.dfy` | path names as text: components, glibc's `dirname` and `basename` |
| `FileTree.dfy` | the tree, path lookup with links, the system calls |
| `ClonePath.dfy` | the clone algorithm and its exact outcome with no link on the way |
| `CloneLinks.dfy` | how far a name leads, and the exact outcome of a clone with links |
| `MountPoint.dfy` | the walk up to the mount point |
| `Kernel.dfy` | class `System`: calls that take path names, and `recyclix_clonepath_recursive` with its retries |
| `Recyclix.dfy` | `unlinkat`, as methods over buffers and as the function they compute |
| `NoLoss.dfy`, `Mounts.dfy`, `Deletion.dfy` | what one call does when no link is on the way in the bin |
| `Soundness.dfy` | what moves and removals keep |
| `Landing.dfy` | the exact outcome of a call for any bin with an absolute name, links and all |
| `RelativeBin.dfy` | the same for bins with relative names |
| `Calls.dfy` | what every call loses and keeps |
| `Runs.dfy` | what any number of calls does |
| `Corners.dfy` | where else the outcome is not what a user would expect, and exactly when |
| `Example.dfy` | small systems: calls that destroy files, a call with a relative name, and a first run that the theorems apply to |
| `AddressText.dfy`, `AddressTable.dfy` | socket addresses, their text, the table |
| `PathRewrite.dfy`, `AutoSsl.dfy` | the two smaller parts |

The C code becomes methods: loops stay loops, buffers stay arrays, the file system is a field that the calls
update. Each method is proved to compute a function of its inputs and of the old state, and the properties
are proved of that function. A buffer of `_POSIX_PATH_MAX` characters is either an array or a string type
that admits no longer text, so every write is proved to fit; what fits is a precondition of the methods only.

A tree maps locations (component sequences) to nodes. Lookup follows links, `.` and `..`, at most 40 links.
`Valid` states that every node hangs below directories, that files live on the device of their directory,
and that inode numbers tell the directories of a device apart. `MountedOnce` states that no device is mounted
twice. `Plain` states that no link is on the way below the bin. The user's regular expressions, `inet_aton`
and the IPv6 text functions are parameters.

## What the code does not do

Each of these is proved, with the condition under which the code does what is expected, or the exact outcome.
A bin is *anchored* when its name is absolute, or descriptor 0 is the working directory (`Landing.Anchored`).

* A size is read right exactly when it fits an `int` within 15 digits (`SizeLimit.SizeExact`); `2147483648`
  becomes negative.
* A file counts as being in the bin when the directory that its file system is mounted in has the bin's inode
  number, and is then removed for good (`MountPoint.UnderBinExact`; `Example.InodeCollision` is such a call).
* A link that was recycled is followed later: files go where it points, and files outside the bin can be
  destroyed. The *foot* of a name is the directory that as many of its leading components as possible lead to
  (`CloneLinks.Foot`), and its *goal* is the foot followed by the other components (`CloneLinks.Goal`).
  `Landing.SubjectLands` says where a file goes by the foot and the goal of its parent's recycled name,
  `Landing.OthersLostIff` which other file is destroyed, and `Landing.ArrivesIff` when the file arrives at its
  place. `Example.OutsideFileUnlinked` and `Example.OutsideFileReplaced` are two calls that destroy a file outside
  the bin. With no link on the way the goal is the parent of the place (`Landing.GoalPlain`).
* A file that is on the way to its own goal is replaced by a directory, and the call fails: exactly when nothing
  stops the clone (`Landing.SubjectLands`; `Example.SubjectDestroyed` is such a call).
* Through a link that leads back into the bin a file comes to the place of a file from another path
  (`Example.OriginCrossed`). A file that comes into the bin stands there for its own path exactly when its recycled
  name comes to its own place (`Runs.SpotTrueIff`, `Runs.SpotTrueByPlace`), and when that is so of every call that
  recycles into the bin, the bins of any run hold no file from another path (`Runs.BinHoldsLatest`).
* A file that was recycled is destroyed when a directory has to be cloned where it stands: in the bin, exactly the
  files right above the subject's place and one level further up, besides the one that the subject replaces
  (`NoLoss.OthersNotLost`; `Example.RecycledFileLost` is such a call). What the repository's documentation mentions
  (in its `README.md`, lines 41 and 42) is only the replacement of the same file.
* A bin name that leads to a file: what the name names is replaced by a directory exactly when the subject is at
  most one directory below the mount point; any other call fails with `ENOTDIR` (`Corners.BinFileDestroyed`,
  `Example.BinLost`).
* Recycling a file sets the bin's mode and owner exactly when the file lies right in the mount point
  (`Corners.BinTakesMountMode`).
* An empty bin cannot be removed: its own path is cloned into it first (`Corners.RmdirSucceedsIff`;
  `Example.EmptyBinStays` is such a call).
* A file that the bin holds a hard link of at its place stays where it is, although the call succeeds
  (`NoLoss.SubjectNotLost`).
* `AT_REMOVEDIR` makes no difference for a file that is recycled, where the C library reports `ENOTDIR`
  (`Landing.SpellingDoesNotMatter`, whose two calls may differ in it).
* `renameat` gets descriptor 0 with the new name. A bin with a relative name never receives a file while that
  descriptor is no directory (`RelativeBin.RelativeBinFails`). If it is the working directory, all is as for an
  absolute name; else the file goes where its recycled name leads from that directory, although its parent was
  cloned below the working directory (`RelativeBin.RelativeBinLands`, `RelativeBin.RelativeOthersLost`).
* A lookup in the address table that does not succeed may still change the port (`AddressTable.FailedLookup`).

## Model

| member | source | states |
|---|---|---|
| SizeLimit.SizeExact | src/recyclix.c:468-486 | the number read times its unit is the number written exactly when it has at most 15 digits and fits an int, or is zero |
| SizeLimit.ToSize | src/recyclix.c:468-486 | the conversion with offsets into the option: 0 for an absent group, a missing unit read as the dash or NUL behind the number, never 2^61 or more |
| SizeLimit.MatchSingle | src/recyclix.c:18-19 | a number with an optional unit matches, with the group offsets that the code uses |
| SizeLimit.MatchPair | src/recyclix.c:18-19 | two such quantities joined by a dash match, with their offsets |
| SizeLimit.MatchOnly | src/recyclix.c:18-19 | nothing else matches |
| SizeLimit.FactorIsPower | src/recyclix.c:482-484 | the units in either case stand for the powers of 1024 |
| SizeLimit.UnitsOnly | src/recyclix.c:18-18 | no other character is a unit |
| SizeLimit.LimitsRoundTrip | src/recyclix.c:132-133 | printing a pair of limits, each with a unit or without one, and reading the option gives the numbers times their powers of 1024 back |
| SizeLimit.MinimumAlone | src/recyclix.c:132-133 | a single number, with a unit or in bytes, is a minimum without a maximum |
| BinConfig.LoadItem | src/recyclix.c:62-78 | the buffer holds the item as it is, or HOME, a slash and what follows `~/`, although the format argument runs on into later items; without HOME it is empty |
| BinConfig.TildeIsHome | src/recyclix.c:67-77 | `~/x` is HOME, a slash and x, or void without HOME; an item that does not begin with `~/` is not expanded |
| BinConfig.ItemParts | src/recyclix.c:91-109 | a directory and options written with commas between them are read as these, with or without a comma at the end |
| BinConfig.ExclusionMeans | src/recyclix.c:146-168 | `!` and a pattern exclude the names that the pattern matches, and are an error when it does not compile |
| BinConfig.RangeAcceptedIff | src/recyclix.c:132-142 | a range in bytes is refused exactly when it has an upper limit below the lower one |
| Recyclix.ItemFitsIff | src/recyclix.c:36-76 | an item fits the buffer exactly with at most 255 characters, before and after HOME is put in |
| BinConfig.ReadOption | src/recyclix.c:111-174 | one option: limits, exclusion or error, insane limits included |
| BinConfig.ReadOptions | src/recyclix.c:87-179 | cutting the buffer in place equals splitting at commas, dropping only a final empty field, and applying from the defaults; the buffer is left with the directory |
| BinConfig.NextOption | src/recyclix.c:98-109 | one cut takes one field off the rest and leaves the directory alone |
| BinConfig.LastOptionWins | src/recyclix.c:87-179 | a list is accepted exactly when every option is, and then the last size option and the last exclusion count |
| Text.JoinSplit | src/recyclix.c:62-64 | splitting loses nothing and leaves no separator in a field |
| Text.SplitJoin | src/recyclix.c:62-64 | joining fields and splitting them gives the fields back |
| Recyclix.JudgeExact | src/recyclix.c:80-211 | an item is an error exactly when an option is, and is taken exactly when device, size and exclusion pass; options are read before the device is looked at |
| Recyclix.JudgeItem | src/recyclix.c:62-211 | the code on one item reaches that verdict |
| Recyclix.ChooseFirst | src/recyclix.c:59-213 | the decision is the verdict of the first item that is not passed over |
| Recyclix.FirstDecides | src/recyclix.c:59-213 | and whichever item comes first decides, whatever follows it |
| NoLoss.ItemsInOrder | src/recyclix.c:62-64 | of items written with colons between them the first that is not passed over decides |
| Recyclix.ChooseBin | src/recyclix.c:59-213 | the loop that advances through the variable makes that decision and ends |
| Kernel.AbsoluteName | src/recyclix.c:216-220 | an absolute name stands for its own path, whatever descriptor and working directory are |
| Kernel.RelativeName | src/recyclix.c:221-245 | a relative name stands for what the text of the working directory, or of the descriptor's directory, a slash and the name stand for |
| Kernel.PlainName | src/recyclix.c:221-245 | a single name is an entry of the working directory, or of the descriptor's directory |
| Kernel.NoStart | src/recyclix.c:53-57 | with any other descriptor the lookup of a relative name answers EBADF |
| Kernel.RelativeStat | src/recyclix.c:181-181 | the same for the name of a bin, which starts in the working directory |
| FileTree.DotsInName | src/recyclix.c:250-250 | `.` in a name changes nothing, `..` takes the component before it away, and above the root there is the root |
| FileTree.LinkInName | src/recyclix.c:250-250 | a link in a name stands for its target, from the root or from the directory that the link is in |
| FileTree.FortyLinks | src/recyclix.c:391-391 | a name leads through 40 links and no more |
| Recyclix.NoSubject | src/recyclix.c:53-57 | without a subject the call answers the error of the lookup and changes nothing, whatever the environment says |
| Recyclix.FullTextIs | src/recyclix.c:216-246 | the name before it is resolved: an absolute one as it is, any other behind its starting directory and a slash |
| Recyclix.CanonicalText | src/recyclix.c:216-261 | the resolved name is the kernel's own entry, as directory text, slash and name; for a single name that directory is the one it starts in |
| Recyclix.CanonicalIsEntry | src/recyclix.c:216-261 | realpath of the dirname and the basename name the entry that the kernel resolves, for absolute, working-directory and descriptor names, dots and links included; a relative name is written behind the directory it starts in |
| PathText.DirnameDropsLast | src/recyclix.c:248-259 | dirname drops exactly the last component, whatever slashes there are |
| PathText.DirnameEntry | src/recyclix.c:268-273 | only entries of the root have the doubled slash, and dirname gives it back as `//` |
| Recyclix.StepUp | src/recyclix.c:267-273 | one step of the walk yields the text of the location above, the `//` case included |
| Recyclix.FindMount | src/recyclix.c:263-301 | the walk over texts ends, and what is left of the name beyond the mount point is the file's path below it |
| MountPoint.ClimbExact | src/recyclix.c:263-301 | the walk stops at the highest node joined to the file on one device, unless a directory on the way, or the one above it, has the bin's inode number |
| MountPoint.ClimbFindsMount | src/recyclix.c:263-301 | with every device mounted once, all files of a device get its mount point |
| MountPoint.Contiguous | src/recyclix.c:293-297 | no other device lies between a mount point and a node of its device |
| MountPoint.UnderBinExact | src/recyclix.c:281-297 | a file is taken for one in the bin exactly when the bin is above it or the mount's parent shares the bin's inode number |
| Recyclix.RecycledText | src/recyclix.c:303-303 | the recycled name is the bin's name followed by the file's path below the mount point, up to slashes |
| NoLoss.PlaceInvertible | src/recyclix.c:303-303 | bin, mount point and place give the file's path back |
| NoLoss.PlaceInjective | src/recyclix.c:303-303 | two files of a file system never share a place |
| Recyclix.CloneNames | src/recyclix.c:309-322 | target and donor are the directory itself, or the parents of both |
| Kernel.System.ParentTexts | src/recyclix.c:404-407 | target and donor are shortened by one component together, and stay absolute |
| Kernel.System.ClearParent | src/recyclix.c:402-426 | a file in the parent's place is removed, a missing parent cloned after its own donor, any other failure returned |
| Kernel.System.SettleExisting | src/recyclix.c:427-453 | an existing directory takes the donor's mode, anything else is removed for another try |
| Kernel.System.TryOnce | src/recyclix.c:398-459 | a jump back to the mkdir follows only on progress: one obstruction less, or the parent there at last |
| Kernel.System.ClonePathRecursive | src/recyclix.c:375-466 | terminates on every tree, links included, never removes a directory, and computes the clone |
| ClonePath.Clone | src/recyclix.c:375-466 | success means that the name leads to a directory; no directory is lost and no file gained on any tree |
| ClonePath.TryMkdir | src/recyclix.c:398-459 | the same for the retries, with the measure that ends them |
| ClonePath.MkdirKeeps | src/recyclix.c:399-402 | mkdir fails with ENOENT or ENOTDIR only while the parent is no directory |
| ClonePath.CloneExact | src/recyclix.c:375-466 | with no link below a directory the clone fails exactly when a file sits two or more levels above the target, and then nothing changes; else the chain is there, new directories made after their own donors under the umask, the existing target exactly after its donor, and nothing else touched |
| ClonePath.BlockedCase | src/recyclix.c:409-425 | the failing half: unlink of the parent answers ENOTDIR and the tree is as before |
| ClonePath.NewLikeDonor | src/recyclix.c:399-399 | every directory that a clone makes has the permission and sticky bits of its own donor that the umask leaves, and its donor's owner |
| ClonePath.MadeModes | src/recyclix.c:399-399 | a mode without set-id bits is kept as far as the umask leaves it, a set-id bit never, and 0755 stays 0755 under the umask 022 |
| ClonePath.RoutesAfterCloned | src/recyclix.c:375-466 | no directory and no link is lost or changed in kind |
| CloneLinks.CloneTotal | src/recyclix.c:375-466 | the clone of any name from its foot, links included: it is stopped, with nothing changed, by what the entry right beyond the foot is or leads to and how far above the target it stands; else the chain is there, and only that entry has made way |
| CloneLinks.WaysAfterCloned | src/recyclix.c:375-466 | no directory and no link to one is lost or changed in kind |
| Recyclix.MoveIntoBin | src/recyclix.c:309-345 | the code after the walk: clone, then rename or removal |
| Recyclix.RecycleInto | src/recyclix.c:213-345 | the code for a chosen bin |
| Recyclix.UnlinkatRecycling | src/recyclix.c:27-373 | the whole routine over buffers computes the function that the theorems are about |
| NoLoss.RecycledExact | src/recyclix.c:263-345 | recycling a file: untouched with ENOTDIR if blocked, else directories cloned and the file moved, or left alone with EXDEV or EISDIR |
| NoLoss.MadeLikeOriginal | src/recyclix.c:309-323 | the directories that recycling makes in the bin have the bits and the owner of the directories that they stand for |
| NoLoss.ForGoodExact | src/recyclix.c:281-286 | without variable or fitting bin, or from inside the bin, a file goes for good as in the C library |
| NoLoss.CancelledIff | src/recyclix.c:137-174 | the call answers ECANCELED, with nothing touched, exactly when an item with an unacceptable option comes before any bin that fits, whatever device that item is on |
| NoLoss.SubjectNotLost | src/recyclix.c:323-342 | after success a recycled file is in its place, unchanged, and gone from its path, unless the place already held its inode; after a failure it is still where it was |
| NoLoss.OthersNotLost | src/recyclix.c:323-342 | another file is lost exactly when it is in the bin, right above the place or one further up, or is in the place itself, on the subject's device and not its inode |
| NoLoss.ForGoodIff | src/recyclix.c:281-286 | removal for good exactly when no variable is set, every item passes, or the bin taken is above the file or shares its inode number with the directory that the file system is mounted in |
| Mounts.RecycleSucceedsIff | src/recyclix.c:323-342 | recycling succeeds exactly when no file blocks the way, the way stays on the device, and no directory has the place |
| Mounts.CloneMakesNoMounts | src/recyclix.c:375-466 | a clone makes no mount point and keeps devices |
| Deletion.DirectoryExact | src/recyclix.c:311-333 | a directory has its chain cloned and is then removed as the C library does it, or nothing happens |
| Deletion.InBinForGood | src/recyclix.c:281-286 | with one bin for a device a file in it is never moved within it |
| Landing.FileLands | src/recyclix.c:309-345 | for every anchored bin, links or not: the clone of the parent's recycled name, and the rename into its goal |
| Landing.SubjectLands | src/recyclix.c:323-342 | the file moves into the goal exactly when nothing stops the clone, it is not on the way itself, the foot is on its device and no directory has its name there; else it stays, or is replaced by a directory if it is on the way |
| Landing.OthersLostIff | src/recyclix.c:409-446 | another file is destroyed exactly when it stands right beyond the foot, or is replaced in the goal, in the bin or out of it |
| Landing.ArrivesIff | src/recyclix.c:323-342 | the file arrives at its place exactly when nothing stops the clone, the goal is the parent of the place, the foot is on its device and no directory has the place |
| Landing.ArrivalSafe | src/recyclix.c:409-446 | when the goal is the parent of the place, no file outside the bin is lost |
| Landing.GoalPlain | src/recyclix.c:303-323 | with no link on the way the goal is the chain itself |
| Landing.DirectoryLands | src/recyclix.c:311-333 | for every bin, links or not: the directory's recycled name is cloned, and the C library decides |
| Landing.DirectoryLosesIff | src/recyclix.c:311-333 | such a call destroys exactly the file right beyond the foot |
| Landing.SpellingDoesNotMatter | src/recyclix.c:216-261 | two spellings of a file or directory that lead to the same bin with an absolute name have the same outcome, links or not; for a file whatever the flag |
| RelativeBin.RelativeBinFails | src/recyclix.c:336-341 | with a relative bin and no directory on descriptor 0 the call fails, and the file stays unless it was on the way itself |
| RelativeBin.RelativeBinLands | src/recyclix.c:323-341 | with one the file moves exactly when the recycled name leads from there to a directory on its device without a directory of its name, and stays otherwise |
| RelativeBin.RelativeOthersLost | src/recyclix.c:336-446 | with a relative bin the other files destroyed are exactly the one in the way of the clone, and the one renamed onto |
| Calls.CallKeeps | src/recyclix.c:27-373 | every call, with an anchored bin if it is on a file, leaves a valid tree with the same mount points, and a file new in its place is the subject in the entry that its recycled name comes to |
| Calls.NoLossInOneCall | src/recyclix.c:27-373 | over every call on a file, with an anchored directory as the bin if one is taken: a file is lost exactly when it is the subject and removal for good is called for, or it gives way or leaves its place by recycling; the subject is then in its new place, unless it stood in its own way |
| Calls.NoLossForDirectory | src/recyclix.c:311-333 | over every call on a directory: a file is lost exactly when it stands in the way of the directory's clone |
| Calls.DeletedTwice | src/recyclix.c:281-342 | deleting a file that was recycled into the bin removes it for good, or is cancelled |
| Runs.StepKeeps | src/recyclix.c:27-373 | a call, or anything outside the bins, keeps every bin true to the record of files that came into it |
| Runs.SpotTrueIff | src/recyclix.c:303-336 | a file that comes into the bin stands there for its own path exactly under the condition on calls |
| Runs.SpotTrueByPlace | src/recyclix.c:303-336 | the condition is that the recycled name comes to the file's place, or outside the bin |
| Runs.PlainCallAllowed | src/recyclix.c:303-336 | a call with no link on the way in the bin meets it |
| Runs.LogIsLatest | src/recyclix.c:27-373 | the record holds for each path the file that came last from it |
| Runs.BinHoldsLatest | src/recyclix.c:263-342 | in every run from empty bins whose calls on files meet the condition, a file in a bin is the one that came last from the path that its place stands for, never one from another path |
| Example.FirstRun | src/recyclix.c:263-342 | a run to which the theorem on runs applies: one call, after which the file is in the bin |
| Example.WorkingDirectory | src/recyclix.c:224-245 | unlink of f in the directory /h recycles /h/f, and leaves /f where it is |
| Example.RelativeBinInert | src/recyclix.c:336-336 | with the relative name b for the bin and no descriptor 0, deleting /f fails with EBADF |
| Example.RecycledFileLost | src/recyclix.c:409-413 | deleting /d/f destroys the file that was recycled as d |
| Example.OutsideFileUnlinked | src/recyclix.c:443-446 | with a recycled link to /o in the bin, deleting /a/d/f destroys /o/d and moves the file there |
| Example.OutsideFileReplaced | src/recyclix.c:336-336 | with that link, deleting /a/x replaces /o/x |
| Example.SubjectDestroyed | src/recyclix.c:443-446 | with a recycled link to /a/f in the bin, deleting /a/f/f fails and destroys it |
| Example.OriginCrossed | src/recyclix.c:336-336 | with a recycled link to /b/c in the bin /b, deleting /a/x puts it in the place of /c/x |
| Example.InodeCollision | src/recyclix.c:281-297 | deleting a file outside the bin removes it for good, the mount's parent having the bin's inode number |
| Example.EmptyBinStays | src/recyclix.c:311-333 | removing the empty bin fails |
| Example.BinLost | src/recyclix.c:443-446 | a bin that is a file is replaced by a directory |
| Corners.TwoGigabytesRunOver | src/recyclix.c:479-480 | sizes from 2^31 to 2^32 - 1 come out negative |
| Corners.BinTakesMountMode | src/recyclix.c:318-323 | the bin takes the mount point's mode and owner when the file lies right in the mount point, and is left alone otherwise |
| Corners.RmdirSucceedsIff | src/recyclix.c:311-333 | an empty directory is removed exactly when nothing blocks its way and it is not the bin |
| Corners.CloneExisting | src/recyclix.c:429-440 | a name that leads to a directory gives that directory the donor's mode and owner, wherever it is |
| Corners.BinFileDestroyed | src/recyclix.c:409-446 | with a bin name that leads to a file, what it names is replaced by a directory exactly for subjects at most one directory below the mount point; the call fails with nothing changed for all others |
| AddressText.Inet4RoundTrip | src/oob-proxy-socket-address-info.c:34-34 | an IPv4 address printed and parsed is itself |
| AddressText.Inet4Only | src/oob-proxy-socket-address-info-preload.c:74-74 | no other text is read as an IPv4 address |
| AddressText.TextRoundTrip | src/oob-proxy-socket-address-info-preload.c:103-106 | the text fits its buffer, and cut at the last comma and parsed it gives address and port back |
| AddressText.TextInjective | src/oob-proxy-socket-address-info.c:47-47 | two addresses never share a text, nor a name in the table |
| AddressText.NtopParts | src/oob-proxy-socket-address-info.c:36-36 | an IPv4 address is its four bytes in decimal with dots between them |
| AddressText.TextParts | src/oob-proxy-socket-address-info.c:47-47 | the text is the address in numbers, the one comma, and the port in decimal without leading zeros |
| AddressText.TextOnly | src/oob-proxy-socket-address-info.c:47-47 | no other text is like that |
| AddressText.TenText | src/oob-proxy-socket-address-info.c:47-47 | port 80 of 10.0.0.1 is `10.0.0.1,80` |
| AddressTable.SocketAddress.Save | src/oob-proxy-socket-address-info.c:16-49 | for an internet address its bytes in decimal with dots, or its IPv6 text, then a comma and the port; failure for any other family |
| AddressTable.SocketAddress.Update | src/oob-proxy-socket-address-info-preload.c:54-76 | the port is written modulo 65536 before the address is parsed |
| AddressTable.FailedLookup | src/oob-proxy-socket-address-info-preload.c:54-107 | a lookup puts a whole address in place exactly when the link has a readable one; else it leaves the link's port there, and changes nothing exactly when there is no link, no port in it, or the same port |
| AddressTable.LinkIff | src/oob-proxy-socket-address-info-preload.c:88-99 | a link counts when it is named by directory, slash and address text and has 1 to 52 characters |
| AddressTable.HalvesExact | src/oob-proxy-socket-address-info-preload.c:103-104 | a link is cut at its last comma, and one without a comma is all address |
| AddressTable.PortLeft | src/oob-proxy-socket-address-info-preload.c:73-75 | a link with an unreadable address leaves the number behind its comma in the port |
| AddressTable.PortKept | src/oob-proxy-socket-address-info-preload.c:73-75 | a link without a comma changes the address alone, if it can be read |
| AddressTable.TenLink | src/oob-proxy-socket-address-info-preload.c:78-107 | with a link `10.0.0.1,80` to `10.0.0.10,8080` a lookup of the one gives the other |
| AddressTable.OtherFamilyKept | src/oob-proxy-socket-address-info-preload.c:71-71 | an address of another family is left alone, and so is the table |
| AddressTable.PartialUpdate | src/oob-proxy-socket-address-info-preload.c:73-75 | such a link: with "x,80" in the table a lookup fails and leaves port 80 |
| AddressTable.ChangedProper | src/oob-proxy-socket-address-info-preload.c:78-107 | whatever the table holds, the result is an address of the same family |
| AddressTable.ChangedByText | src/oob-proxy-socket-address-info-preload.c:78-107 | a link with the text of an address of the family turns the address into that one |
| AddressTable.Table.Change | src/oob-proxy-socket-address-info-preload.c:78-107 | the lookup with its length checks, names fitting their buffer |
| AddressTable.Table.Set | src/oob-proxy-socket-address-info.c:51-66 | the link is replaced and no other changes; with an empty target it is only removed |
| AddressTable.Table.Unset | src/oob-proxy-socket-address-info.c:68-74 | the link is removed and no other changes |
| AddressTable.Table.ReceiveFrom | src/oob-proxy-socket-address-info-preload.c:110-124 | peer saved, translated, and linked back |
| AddressTable.ReceiveKeeps | src/oob-proxy-socket-address-info-preload.c:110-124 | after a receive the delivered address looks up to the peer, and is the client of a proxy, the peer itself, or a client's proxy |
| AddressTable.ProxiesStay | src/oob-proxy-socket-address-info-preload.c:110-124 | no sequence of receives, from peers of any family, changes what the table has for a proxy |
| AddressTable.FreshTableGood | src/oob-proxy-socket-address-info.c:51-66 | a table with the proxies' entries alone is a start for that |
| PathRewrite.Find | src/pathrewrite.c:29-29 | the leftmost occurrence, or none |
| PathRewrite.Splice | src/pathrewrite.c:33-35 | the three overlapping copies leave prefix, new text and suffix |
| PathRewrite.Rewrite | src/pathrewrite.c:16-39 | the path with its leftmost match replaced, the path itself without one or with a variable unset |
| PathRewrite.RewrittenExact | src/pathrewrite.c:29-35 | what stands before the first occurrence and behind it is kept, and so is a path without one |
| PathRewrite.UndoneIff | src/pathrewrite.c:29-35 | swapping the variables undoes the rewriting exactly when the replacement first occurs where it was put |
| PathRewrite.EmptyTextNotUndone | src/pathrewrite.c:29-35 | a path that is not restored |
| AutoSsl.ScanPorts | src/autossl.c:48-55 | the loop computes the scan of the list's readings and ends |
| AutoSsl.ScanIps | src/autossl.c:65-77 | the same for addresses |
| AutoSsl.ScanExact | src/autossl.c:48-79 | a match exactly when a field matches and none before it is malformed; an error exactly when a malformed field comes before any match |
| AutoSsl.AtoiField | src/autossl.c:50-50 | atoi of the rest of a list is atoi of its first field that is not blank |
| AutoSsl.PortsByField | src/autossl.c:48-55 | what the loop reads from the rest of the list are the ports of the fields, blank ones passed over |
| AutoSsl.NumeralPort | src/autossl.c:50-51 | a numeral reads as its value modulo 65536, or as 65535 beyond a long, and is an error when that is zero |
| AutoSsl.PrintedPort | src/autossl.c:50-52 | the field of a port is read as that port |
| AutoSsl.PrintedMatch | src/autossl.c:48-58 | a list of ports with spaces between them matches exactly these ports, and is never an error |
| AutoSsl.TwoPorts | src/autossl.c:48-58 | the list `80 8080` is for these two ports |
| Text.AtoiText | src/autossl.c:50-50 | atoi: white space, a sign, the digits up to the next other character, held within a long and cut to an int; zero without a number |
| Text.AtoiDecimal | src/autossl.c:137-137 | a printed int reads back, as the error number does |
| Text.DecimalOnly | src/oob-proxy-socket-address-info.c:47-47 | the printed number is the one numeral of its value without a leading zero |
| AutoSsl.AddressesByField | src/autossl.c:65-77 | what the loop reads from the rest of the list are the addresses of the fields, since inet_aton stops at a space |
| AutoSsl.Decide | src/autossl.c:39-83 | an upgrade exactly when family, ports, addresses and command say so, by the fields of both lists; an error, with the number configured, exactly when a list is malformed where it is read and an error number is configured |

## Left out

- Recyclix.UnlinkatRecycling: pathnames that end in `.` or `..` are not covered, nor is a trailing slash on the name of a subject or a bin that is no directory.
- NoLoss.RecycledExact: covers bins with absolute names and no link on the way below them (`Usable`), as do `NoLoss.OthersNotLost`, `Mounts.RecycleSucceedsIff`, `Deletion.DirectoryExact` and the theorems of Corners on the bin's mode and on rmdir; Landing, RelativeBin and Calls cover the rest.
- RelativeBin.RelativeBinLands: does not follow a file that is on the way to its own clone while descriptor 0 is a directory other than the working directory; the directory that has replaced it would be renamed.
- Calls.NoLossInOneCall: a bin with a relative name while descriptor 0 is another directory is left to RelativeBin, and a bin that is a file to Landing.
- Runs.BinHoldsLatest: bins and mount points are fixed for the run, and the bins that calls on files take are anchored.
- AddressTable.Table.Set: the directory of the links exists and can be written.
- Kernel.System.ClonePathRecursive: the process may do everything (no EPERM, no quota); set-group-ID inheritance of new directories is not modelled.
- AddressTable.ProxiesStay: entries that proxies add or remove between receives are not part of the run.
- AutoSsl.Decide: socketpair, fork, exec and dup2 behind the decision are not modelled.
- Races between the system calls; every call sees the tree as the one before left it, so `getcwd`, `readlink` and `realpath` of existing directories succeed.
- Bind mounts, and files as mount points.
- Inode numbers are not used again after a removal; link counts and the content shared by hard links.
- Rename of directories, but for the refusal to move one below itself.
- The regular expressions of exclusions: whether one compiles and matches is a parameter.
- The text of IPv6 addresses and of what `inet_aton` reads: parameters, with the property that an address reads back, and that `inet_aton` stops at a space.
- A null `msg_name` in `recvmsg`, which the code follows without a check.
- `sendmsg` of the address table: it translates after sending, by the same lookup.
- Diagnostics on standard error, and `errno` beyond the failing system call's.
- The other libraries of the repository: their decisions can be read off one branch.
