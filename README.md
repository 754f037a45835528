# uefi-manager, modelled in Dafny

uefi-manager is a Qt desktop tool for Linux that manages the UEFI boot menu. It runs
`efibootmgr` to list, activate, deactivate, reorder, rename and remove boot entries. It also
installs a kernel as an EFI stub: it mounts the system and boot partitions (unlocking LUKS
containers), copies the kernel, initrd and microcode to the EFI system partition (ESP), and
creates the boot entry. Helper programs (`lsblk`, `blkid`, `findmnt`, `cryptsetup`, `mount`,
`sfdisk`, `efibootmgr`) do the work; the application builds their arguments and reads their
output.

This project models the logic of that application: the free functions of `src/utils.cpp`, the
main window of `src/mainwindow.cpp`, and the older top-level `mainwindow.cpp` where it differs.
Running a program is outside the model. Every operation that runs one gets a `Runner`, a
function from a `Command` (program, arguments, standard input, elevation) to its `Outcome`
(success and trimmed output). The file system is a `Files` value of queries: existence,
symlinks, sizes and free space.

Modules:

- `Wrappers`: the Option type.
- `Host`: commands, outcomes, the file-system queries, `SCRUB_BYTE`.
- `QtText`: the QString operations and regular-expression character classes the code relies on.
- `Utils`: `sortKernelVersions` and its comparator, and `extractDiskFromPartition`.
- `UtilsExamples`: the unit tests' sorting cases, shown to be the only orders a correct sort can produce.
- `BootEntries`: readBootEntries, the row format, toggling, boot-number validation, saveBootOrder and sortUefiBootOrder, as functions.
- `BootPanel`: the boot-entry list widget as a class whose methods update its rows.
- `RenameEntry`: renameUefiEntry, including the regular expressions it matches.
- `ConfigFiles`: PERSISTENCE_TYPES, readGrubEntry, getDistroName, determineKernelDir, getFallbackOptions, combineBootOptions, isShimSystemd.
- `Devices`: the classification of listDevices, and getEspDevicePaths.
- `Resolver`: mountPartition, openLuks, getMountPoint, getBootLocation(mountPoint), and the cleanup arguments of the destructor.
- `StubInstaller`: checkSizeEsp, copyKernel, installEfiStub.
- `Legacy`: the top-level `mainwindow.cpp` where it differs from `src/`. That covers its destructor, getBootLocation, mountPartition, openLuks and checkSizeEsp.

The functions of the top-level `mainwindow.cpp` that match their `src/` counterparts are
modelled once. These are toggleUefiActive, sortUefiBootOrder, saveBootOrder, readGrubEntry and
the persistence map. They differ only in null-pointer guards of the widgets and a renamed
constant.

## Model

| member | source | states |
|---|---|---|
| Utils.ParseVersionSome | src/utils.cpp:12-17 | a file name has a version exactly when the version pattern can start somewhere in it (digits, a dot, a digit) |
| Utils.NoDigitsNoVersion | src/utils.cpp:12-17 | a name without any digit has no version and takes the unversioned branch |
| Utils.ThreePartVersion | src/utils.cpp:12-33 | where the first digit starts `major.minor.patch`, the key is those three numbers as toInt reads them, plus capture 4 |
| Utils.TwoPartVersion | src/utils.cpp:29 | a version with only two numbers has patch 0 |
| Utils.VersionOfParts | src/utils.cpp:12-33 | a digit-free prefix followed by `x.y.z` and a tail that does not continue z has major x, minor y, patch z |
| Utils.BeforeMirror | src/utils.cpp:17-45 | the ascending comparator is the descending one with its arguments swapped |
| Utils.BeforeIrreflexive | src/utils.cpp:11-46 | no name is placed before itself |
| Utils.BeforeAsymmetric | src/utils.cpp:11-46 | two names are never each placed before the other |
| Utils.NotBeforeTransitive | src/utils.cpp:11-46 | "not placed after" is transitive: the comparator is a strict weak order |
| Utils.BeforeTransitive | src/utils.cpp:11-46 | the comparator is transitive |
| Utils.BeforeIsStrictWeakOrder | src/utils.cpp:11-49 | the comparator meets std::sort's requirement in both directions |
| Utils.UnversionedPlacement | src/utils.cpp:20-25 | an unversioned name goes before a versioned one when descending and after it when ascending |
| Utils.SortKernelVersions | src/utils.cpp:48-50 | the result is a permutation of the input, sorted by the comparator; lists of at most one name come back unchanged; the direction defaults to newest first, as declared at src/utils.h:8 |
| Utils.InsertionSort | src/utils.cpp:49 | sorting the copy in place leaves it sorted by the comparator and a permutation of what it held |
| Utils.InsertAt | src/utils.cpp:49 | one insertion step extends the sorted prefix by one element and permutes the array |
| Utils.SortedReversed | src/utils.cpp:35-45 | a list sorted newest first, read backwards, is sorted oldest first |
| Utils.SortedUnique | src/utils.cpp:48-50 | two sorted permutations of one list are equal when no two different names in it are equivalent |
| Utils.SortedByUnique | src/utils.cpp:48-50 | any two results of sortKernelVersions on the same list agree when its names are pairwise comparable |
| Utils.AscendingIsReversedDescending | src/utils.cpp:17-45 | for names that are pairwise comparable, the ascending result is exactly the descending result reversed |
| Utils.DiskMatch | src/utils.cpp:55-57 | capture 1, when the pattern matches, is a prefix of the name |
| Utils.ExtractDiskFromPartition | src/utils.cpp:53-63 | the disk name is always a prefix of the partition name |
| Utils.ExtractDiskDropsNumber | src/utils.cpp:55-62 | a name other than nvme/mmcblk loses exactly its trailing digit run |
| Utils.ExtractDiskDropsNumberAny | src/utils.cpp:55-57 | capture 1 of `^(.*?)(\d+)$` is the name without its trailing digits |
| Utils.ExtractDiskNvmePartition | src/utils.cpp:58-61 | an nvme/mmcblk name loses its digits and the `p` before them |
| Utils.ExtractDiskWithoutNumber | src/utils.cpp:55-62 | a name that does not end in a digit comes back unchanged, unless it is an nvme/mmcblk name ending in `p` |
| Utils.ExtractDiskSata | tests/test_utils.cpp:68-72 | `sda1` gives `sda` and `sdb3` gives `sdb` |
| Utils.ExtractDiskVirtio | tests/test_utils.cpp:85-89 | `vda3` gives `vda` and `xvda1` gives `xvda` |
| Utils.ExtractDiskNvme | tests/test_utils.cpp:74-78 | `nvme0n1p2` gives `nvme0n1` and `nvme1n1p1` gives `nvme1n1` |
| Utils.ExtractDiskMmc | tests/test_utils.cpp:80-83 | `mmcblk0p1` gives `mmcblk0` |
| Utils.ExtractDiskWholeDisk | src/utils.cpp:55-61 | as written: `sda` stays `sda`, but `nvme0n1` becomes `nvme0n` and `mmcblk0` becomes `mmcblk` |
| Utils.ExtractDiskFromPartitionCorrected | tests/test_utils.cpp:91-96 | the corrected disk name is a prefix of the partition name too |
| Utils.CorrectedKeepsWholeDisk | tests/test_utils.cpp:91-96 | the corrected function returns whole-disk nvme/mmcblk names unchanged |
| Utils.CorrectedOnNvmePartitions | src/utils.cpp:58-61 | on nvme/mmcblk partition names both versions drop the `p<digits>` suffix |
| Utils.CorrectedOnOtherPartitions | src/utils.cpp:55-57 | on other names both versions drop the trailing digits |
| Utils.CorrectedWholeDisks | tests/test_utils.cpp:94-95 | corrected: `nvme0n1` and `mmcblk0` come back unchanged |
| Utils.CorrectedPartitions | tests/test_utils.cpp:68-78 | corrected: `nvme0n1p2` gives `nvme0n1` and `sda1` gives `sda` |
| UtilsExamples.VersionOf5100 | tests/test_utils.cpp:23-28 | `vmlinuz-5.10.0` has version 5.10.0 |
| UtilsExamples.VersionOf5150 | tests/test_utils.cpp:23-28 | `vmlinuz-5.15.0` has version 5.15.0 |
| UtilsExamples.VersionOf610 | tests/test_utils.cpp:37-44 | `vmlinuz-6.1.0`, also with `-2-amd64`, has version 6.1.0 |
| UtilsExamples.VersionOf6687 | tests/test_utils.cpp:37-44 | the WSL2 kernel name has version 6.6.87 |
| UtilsExamples.SortThree | src/utils.cpp:48-50 | three names in comparator order have that order as their only sorted permutation |
| UtilsExamples.SortDescendingExample | tests/test_utils.cpp:23-28 | any correct descending sort of the test list gives 6.1.0, 5.15.0, 5.10.0 |
| UtilsExamples.SortAscendingExample | tests/test_utils.cpp:30-35 | any correct ascending sort gives 5.10.0, 5.15.0, 6.1.0 |
| UtilsExamples.SortMixedExample | tests/test_utils.cpp:37-44 | the WSL2 kernel comes first and 5.10.0 last, newest first |
| UtilsExamples.NoVersion | tests/test_utils.cpp:46-54 | `zzz-noversion` and `aaa-noversion` carry no version |
| UtilsExamples.UnversionedByName | src/utils.cpp:17-19 | two unversioned names compare by operator<, reversed when descending |
| UtilsExamples.SortUnmatchedExample | tests/test_utils.cpp:46-54 | unversioned names: descending keeps `zzz, aaa`, ascending gives `aaa, zzz` |
| UtilsExamples.DefaultNewestFirst | src/mainwindow.cpp:738 | the one-argument call selectKernel makes sorts the test list newest first: 6.1.0, 5.15.0, 5.10.0 |
| UtilsExamples.DefaultSingle | tests/test_utils.cpp:56-60 | the one-argument call returns a single name unchanged |
| UtilsExamples.DefaultEmpty | tests/test_utils.cpp:62-66 | the one-argument call returns an empty list empty |
| BootEntries.Entries | src/mainwindow.cpp:797-806 | every row comes from a listing line matching `^Boot[0-9A-F]{4}\*?\s+`, and is grey exactly when the line has no `*` |
| BootEntries.EntriesAppend | src/mainwindow.cpp:800-806 | rows keep listing order: the rows of two parts of a listing are those of each part, in turn |
| BootEntries.EntriesMembers | src/mainwindow.cpp:800-806 | a line's row is listed exactly when the line is in the listing and matches the entry pattern |
| BootEntries.ScalarLineIsNoEntry | src/mainwindow.cpp:807-815 | Timeout, BootNext, BootCurrent and BootOrder lines never match the entry pattern |
| BootEntries.ScalarLinesAreNoRows | src/mainwindow.cpp:800-815 | those lines never become rows |
| BootEntries.KeysDisjoint | src/mainwindow.cpp:807-815 | a line names at most one of the four variables |
| BootEntries.ScalarValue | src/mainwindow.cpp:808-812 | the value shown is trimmed |
| BootEntries.OrderValue | src/mainwindow.cpp:814 | the BootOrder pieces are non-empty and contain no comma |
| BootEntries.LastWith | src/mainwindow.cpp:807-815 | the label shows the value of the last line for its key |
| BootEntries.EntriesSnoc | src/mainwindow.cpp:800-806 | one more line adds its row at the end exactly when it matches |
| BootEntries.ValueOfSnoc | src/mainwindow.cpp:807-812 | a later line for the key replaces the value |
| BootEntries.OrderOfSnoc | src/mainwindow.cpp:813-814 | a later BootOrder line replaces the order |
| BootEntries.ScalarsSnoc | src/mainwindow.cpp:807-815 | one more line updates at most the variable it names |
| BootEntries.OrderValueOfLine | src/mainwindow.cpp:814 | `BootOrder: <s>` gives the non-empty comma-separated pieces of s |
| BootEntries.RowTextParts | src/mainwindow.cpp:307-308 | in `Boot<num>[*] <rest>` the first word is the token and everything after the first space is the rest |
| BootEntries.ToggleOfRow | src/mainwindow.cpp:307-317 | the toggle reads back the number, the marker and the rest of a canonical row |
| BootEntries.ToggleTwice | src/mainwindow.cpp:314-321 | toggling flips the marker and the grey background; toggling twice restores the row |
| BootEntries.BootNumber | src/mainwindow.cpp:1838-1844 | a validated boot number is four characters of `[0-9A-Z]`, without comma or space |
| BootEntries.BootNumberOfRow | src/mainwindow.cpp:1777-1779 | a canonical row yields its own number |
| BootEntries.BootNumberOfEntry | src/mainwindow.cpp:798 | a listing entry line yields the four characters after `Boot` |
| BootEntries.SetBootNext | src/mainwindow.cpp:1808-1816 | `efibootmgr -n` runs exactly for a valid number; the label changes exactly when it succeeds, to that number |
| BootEntries.BootNumbers | src/mainwindow.cpp:1776-1782 | the saved numbers are valid, one per row at most, without commas |
| BootEntries.SaveBootOrderRoundTrip | src/mainwindow.cpp:1784 | the saved string, read back as a BootOrder line is read, gives exactly the saved numbers |
| BootEntries.BootNumbersOfRows | src/mainwindow.cpp:1776-1782 | canonical rows save exactly their numbers, in row order |
| BootEntries.FirstMatch | src/mainwindow.cpp:1052-1057 | the row found is the first one starting with `Boot<item>` |
| BootEntries.Move | src/mainwindow.cpp:1058-1059 | taking a row out and inserting it elsewhere permutes the list |
| BootEntries.RunPermutes | src/mainwindow.cpp:1044-1061 | sorting by the boot order permutes the rows |
| BootEntries.RunMovesOrderedFirst | src/mainwindow.cpp:1044-1061 | with unique matches, the rows the order names come first in the order's order, and the others keep their order after them |
| BootEntries.UnorderedRowsSnoc | src/mainwindow.cpp:1051-1061 | each order item takes its row out of the unordered rows |
| BootPanel.ReadListing | src/mainwindow.cpp:795-797 | the listing is split into its non-empty lines and every one of them is scanned |
| BootPanel.ScanLines | src/mainwindow.cpp:799-816 | the loop adds exactly the entry rows and reads exactly the four variables |
| BootPanel.BootList.ReadBootEntries | src/mainwindow.cpp:792-817 | the list gains the entry rows, in order, after the rows it had |
| BootPanel.BootList.ToggleActive | src/mainwindow.cpp:296-325 | efibootmgr runs exactly for a row whose token is valid; only that row changes, to the toggled text, and only when efibootmgr succeeds; the older revision at mainwindow.cpp:226-251 behaves the same |
| BootPanel.BootList.RemoveEntry | src/mainwindow.cpp:1820-1850 | `efibootmgr -B -b` runs exactly for a confirmed row with a valid number; that row alone disappears, only on success |
| BootPanel.BootList.SaveBootOrder | src/mainwindow.cpp:1772-1788 | `efibootmgr -o` gets the rows' valid numbers joined by commas; the older revision at mainwindow.cpp:1158-1174 behaves the same |
| BootPanel.BootList.SortByOrder | src/mainwindow.cpp:1044-1068 | the rows become the specified arrangement; an empty order leaves them unchanged; the older revision at mainwindow.cpp:795-817 behaves the same |
| RenameEntry.LinesContaining | src/mainwindow.cpp:1930-1934 | the kept lines are exactly the lines containing the needle, and nothing else |
| RenameEntry.RejoinedLines | src/mainwindow.cpp:1935-1939 | joining the kept lines with newlines and splitting again changes nothing |
| RenameEntry.FilteredLinesAreTheMatchingLines | src/mainwindow.cpp:1927-1939 | the lines re-read are exactly the output lines containing the needle |
| RenameEntry.DiskName | src/mainwindow.cpp:1937-1942 | a captured disk name is non-empty and has no quote |
| RenameEntry.DiskNameOfPairs | src/mainwindow.cpp:1937-1942 | a line starting `NAME="x"` gives x |
| RenameEntry.PartEntry | src/mainwindow.cpp:1959-1966 | a partition line gives a non-empty device and a non-empty uuid without commas |
| RenameEntry.LastUuidMark | src/mainwindow.cpp:1959 | the greedy `.*` stops at the last `uuid=` mark it can reach |
| RenameEntry.PartitionsOfEntry | src/mainwindow.cpp:1961-1967 | each map entry comes from the last partition line with that uuid, or was there before |
| RenameEntry.PartitionsFromEntry | src/mainwindow.cpp:1947-1969 | every device in the map comes from some disk's sfdisk dump |
| RenameEntry.EfiMatch | src/mainwindow.cpp:1976-1980 | a matching listing line starts with `Boot` and four hex digits, which are the boot number |
| RenameEntry.LabelEnd | src/mainwindow.cpp:1977 | the greedy label is the longest one after which the rest of the pattern matches |
| RenameEntry.SelectMeaning | src/mainwindow.cpp:1979-1999 | no target exactly when no line is acceptable; a second match without a boot number exactly when two lines match the label; otherwise the first acceptable line |
| RenameEntry.AmbiguousStays | src/mainwindow.cpp:1991-1995 | once a second match is seen, nothing later changes the outcome |
| RenameEntry.ChosenUnique | src/mainwindow.cpp:1984-1990 | at most one line is the chosen entry |
| RenameEntry.DevicePartsWith | src/mainwindow.cpp:2016-2027 | a device that passes the check yields a non-empty, all-digit partition number |
| RenameEntry.SataPartition | src/mainwindow.cpp:2016-2027 | `/dev/sd<x><n>` splits into disk and number, in both versions of the check |
| RenameEntry.NvmePartitionRejected | src/mainwindow.cpp:2017 | as written: no `/dev/nvme...p<n>` device passes the check |
| RenameEntry.MmcPartitionRejected | src/mainwindow.cpp:2017 | as written: no `/dev/mmcblk...p<n>` device passes the check |
| RenameEntry.NvmePartitionAccepted | src/mainwindow.cpp:2016-2027 | corrected: an NVMe partition splits into its namespace device and its number |
| RenameEntry.MmcPartitionAccepted | src/mainwindow.cpp:2016-2027 | corrected: an SD/MMC partition splits into its card device and its number |
| RenameEntry.NvmeEntryRefused | src/mainwindow.cpp:2008-2024 | as written: a chosen entry on an NVMe partition is refused with the bad-device-name message |
| RenameEntry.MmcEntryRefused | src/mainwindow.cpp:2008-2024 | as written: a chosen entry on an SD/MMC partition is refused with the bad-device-name message |
| RenameEntry.NvmeEntryProceeds | src/mainwindow.cpp:2008-2035 | corrected: the same entry goes ahead with the namespace device, its partition number and its loader |
| RenameEntry.MmcEntryProceeds | src/mainwindow.cpp:2008-2035 | corrected: the same entry goes ahead with the card device, its partition number and its loader |
| RenameEntry.DecideProceeds | src/mainwindow.cpp:2001-2035 | going ahead means the chosen entry names a known partition whose device passes the check and whose number is the entry's `HD(n,...)` index; holds for the device pattern as written and for the corrected one |
| RenameEntry.DecideRefuses | src/mainwindow.cpp:1991-2035 | each refusal (two matches, no match, unknown uuid, bad device name, number mismatch) follows from its condition, for either device pattern |
| RenameEntry.ProbesChangeNothing | src/mainwindow.cpp:1925-1973 | none of the queries deletes or creates an entry |
| RenameEntry.ConcludeOrder | src/mainwindow.cpp:2037-2052 | a delete comes right after the queries, and a create right after a delete that succeeded |
| RenameEntry.RefusalChangesNothing | src/mainwindow.cpp:1920-2035 | every refusal, including an empty label, runs only queries: nothing is deleted or created |
| RenameEntry.DeleteFollowsChecks | src/mainwindow.cpp:2044 | a delete implies both labels were given, it follows the queries, and it is for the entry the checks chose, for either device pattern |
| RenameEntry.CreateFollowsDelete | src/mainwindow.cpp:2049 | a create follows a successful delete and carries the new label with the chosen disk, partition and loader, for either device pattern |
| RenameEntry.RenamedMeans | src/mainwindow.cpp:1917-2055 | renamed exactly when both labels are given, the checks pass and both efibootmgr runs succeed, for either device pattern |
| RenameEntry.FilterLines | src/mainwindow.cpp:1930-1934 | the filtering loop keeps exactly the lines containing the needle |
| RenameEntry.CollectDiskNames | src/mainwindow.cpp:1939-1944 | the loop collects the captured disk names in order |
| RenameEntry.AddPartitions | src/mainwindow.cpp:1961-1968 | the loop enters each partition line into the map |
| RenameEntry.ChooseEntry | src/mainwindow.cpp:1979-1999 | the scan returns the selection SelectMeaning describes |
| RenameEntry.ReadPartitions | src/mainwindow.cpp:1948-1969 | one `sfdisk -d` per disk, in order, and the resulting map |
| RenameEntry.Query | src/mainwindow.cpp:1925-1973 | lsblk, then sfdisk for each disk, then the verbose listing |
| RenameEntry.SfdiskCommands | src/mainwindow.cpp:1948-1950 | one `sfdisk -d` per disk, in the disks' order |
| RenameEntry.Apply | src/mainwindow.cpp:2037-2054 | the delete and create run as the conclusion describes: nothing on a refusal, no create after a failed delete |
| RenameEntry.RenameUefiEntry | src/mainwindow.cpp:1917-2055 | the method computes the outcome and commands the specification function gives with the device pattern as written, which RenamedMeans and RefusalChangesNothing characterise |
| ConfigFiles.Persistence | src/mainwindow.cpp:48-60 | an option is a persistence alias exactly when it is in the table, and its value is a normal form: mapping the value again gives the value; the older revision at mainwindow.cpp:40-52 behaves the same |
| ConfigFiles.OptionStepStrings | src/mainwindow.cpp:987-995 | one word adds itself and a space to the free options exactly when it is kept |
| ConfigFiles.OptionsStepStrings | src/mainwindow.cpp:986-996 | the words of a linux line add the kept words, in order, each followed by a space |
| ConfigFiles.LineStepStrings | src/mainwindow.cpp:979-997 | a line adds the kept words after its first word only when it starts with `linux` |
| ConfigFiles.LinesStepStrings | src/mainwindow.cpp:977-998 | the whole file adds the kept words of every linux line, in file order |
| ConfigFiles.StringOptionsAreKeptWords | src/mainwindow.cpp:970-999 | stringOptions is, trimmed, every kept word of every linux line: not bdir=, buuid=, an alias, nor ending in vmlinuz |
| ConfigFiles.GrubEntryWellFormed | src/mainwindow.cpp:977-999 | after reading, the single-valued fields are trimmed and the persistence type is empty or a normal value |
| ConfigFiles.ReadLinuxWords | src/mainwindow.cpp:986-996 | the option loop computes the options the specification function gives |
| ConfigFiles.ReadLines | src/mainwindow.cpp:970-998 | the line loop, starting from cleared fields, computes the same |
| ConfigFiles.FrugalSettings.ReadGrubEntry | src/mainwindow.cpp:964-1001 | true exactly when the file opens; then the options are those of its content, read from cleared fields; otherwise nothing changes; the older revision at mainwindow.cpp:716-753 behaves the same |
| ConfigFiles.FrugalSettings.constructor | src/mainwindow.cpp:971-976 | new settings start with every field cleared, as readGrubEntry clears them |
| ConfigFiles.DistroValue | src/mainwindow.cpp:1094 | the value after `=` has its quotes removed |
| ConfigFiles.FirstStarting | src/mainwindow.cpp:1091-1098 | the search stops at the first line starting with the term |
| ConfigFiles.DistroName | src/mainwindow.cpp:1070-1105 | the distribution name is never empty and has no quote |
| ConfigFiles.DistroNameOfFirstLine | src/mainwindow.cpp:1091-1104 | the name is the value of the first line starting with the release file's key, when that is non-empty |
| ConfigFiles.GetDistroName | src/mainwindow.cpp:1070-1105 | the loop with its break returns that name |
| ConfigFiles.KernelPathOnRoot | src/mainwindow.cpp:1207-1222 | for a mounted root, the kernel directory is "/boot", and the root, that directory and the kernel name give the kernel's path inside the root's boot directory |
| ConfigFiles.KernelPathOfRunningSystem | src/mainwindow.cpp:1209-1214 | for the running system, the kernel directory, prefixed by /boot when it is a mount point, locates the kernel at /boot/<vmlinuz> |
| ConfigFiles.KernelPathOnBootPartition | src/mainwindow.cpp:1217-1221 | a boot directory outside the root has the kernel directory "", so the kernel is found directly inside the boot directory |
| ConfigFiles.FallbackOptionsJoin | src/mainwindow.cpp:1306-1343 | the fallback options are the non-empty pieces among root=UUID=, GRUB_CMDLINE_LINUX and GRUB_CMDLINE_LINUX_DEFAULT, in order, joined by single spaces |
| ConfigFiles.ThreePieces | src/mainwindow.cpp:1330-1342 | appending " " + piece for the non-empty pieces, then trimming, joins them by single spaces |
| ConfigFiles.AppendOptionStep | src/mainwindow.cpp:1330-1336 | each append keeps the options at most one leading space away from the joined pieces |
| ConfigFiles.CombineBootOptionsMeaning | src/mainwindow.cpp:1345-1360 | the options come back as given or with init=/lib/systemd/systemd appended; empty stays empty; the init option is present when systemd runs and the root is shim-systemd |
| ConfigFiles.TrailingInit | src/mainwindow.cpp:1876-1886 | the chopped suffix is one of the five init paths and ends the root, or none of them ends it |
| ConfigFiles.InitRoot | src/mainwindow.cpp:1871-1886 | the root with the chopped init path gives back the path without its trailing slash |
| ConfigFiles.InitRootOfDirectory | src/mainwindow.cpp:1871-1886 | a directory, with or without a trailing slash, is its own root |
| ConfigFiles.InitRootOfInitPath | src/mainwindow.cpp:1876-1880 | a full path to sbin/init or usr/sbin/init gives the directory above it |
| ConfigFiles.ShimSystemdMeaning | src/mainwindow.cpp:1888-1915 | shim-systemd requires an init and the systemd binary; an init linking to the root's own lib/systemd/systemd is not shim |
| Devices.PartNameIsDriveName | src/mainwindow.cpp:1455-1456 | every name the partition pattern accepts also matches the drive pattern |
| Devices.PartNameExamples | src/mainwindow.cpp:1456 | sda1, xvdb2, mmcblk0p1 and nvme0n1p2 are partition names |
| Devices.NotPartNameExamples | src/mainwindow.cpp:1456 | sda, mmcblk0, nvme0n1 and loop0 are not |
| Devices.DriveNameExamples | src/mainwindow.cpp:1455 | nvme0n1, mmcblk0 and sda are drive names; loop0 and sr0 are not |
| Devices.LinuxIsFrugal | src/mainwindow.cpp:1528-1541 | every partition offered as a Linux root is also offered for a frugal installation |
| Devices.RowStartsWithName | src/mainwindow.cpp:1480-1524 | a row's first space-separated field gives back the device name |
| Devices.EspRowName | src/mainwindow.cpp:1512 | the ESP row names its device first |
| Devices.DriveRowName | src/mainwindow.cpp:1517 | the drive row names its device first |
| Devices.PartitionRowName | src/mainwindow.cpp:1523-1524 | the partition row names its device first |
| Devices.PartitionRowsSub | src/mainwindow.cpp:1521-1541 | rows kept by a stronger filter are among the rows of a weaker one |
| Devices.LinuxRowsAreFrugalRows | src/mainwindow.cpp:1528-1541 | every Linux partition row is also a frugal partition row |
| Devices.PartitionRowsMembers | src/mainwindow.cpp:1494-1541 | a row is listed exactly when some kept device yields it |
| Devices.RowsSnoc | src/mainwindow.cpp:1494-1541 | one more device adds at most one row at the end of each list |
| Devices.PartitionRowSource | src/mainwindow.cpp:1521-1541 | every listed partition row comes from a kept device |
| Devices.PartitionRowListed | src/mainwindow.cpp:1521-1541 | every kept device's row is listed |
| Devices.HasEspRecordSnoc | src/mainwindow.cpp:112-122 | one more record adds its path exactly when it is a vfat ESP partition |
| Devices.DeviceLists.constructor | src/mainwindow.cpp:1488-1492 | a new window starts with five empty lists |
| Devices.DeviceLists.ListDevices | src/mainwindow.cpp:1488-1542 | the lists are cleared, then hold exactly the rows of the devices passing each filter, in lsblk's order |
| Devices.EspPathsMembers | src/mainwindow.cpp:112-122 | a path is listed exactly when some partition record with an ESP type and vfat carries it |
| Devices.GetEspDevicePaths | src/mainwindow.cpp:103-124 | the loop returns those paths in lsblk's order |
| Resolver.MountPointFrom | src/mainwindow.cpp:1127-1129 | the mount point read from lsblk never contains a quote |
| Resolver.MountPointOfPair | src/mainwindow.cpp:1124-1129 | a `MOUNTPOINT="p"` pair gives p |
| Resolver.OpenLuksMeaning | src/mainwindow.cpp:1012-1042 | a mapping is opened exactly when the UUID is non-empty, a non-empty passphrase is entered and luksOpen succeeds; it is named luks-<trimmed uuid>; the passphrase goes only to luksOpen on standard input |
| Resolver.OpenLuksDevice | src/mainwindow.cpp:1015-1041 | the mapper name returned, and when one is returned |
| Resolver.OpenLuksCommands | src/mainwindow.cpp:1015-1033 | the UUID query runs first, then at most luksOpen, which alone receives the passphrase |
| Resolver.AttachMeaning | src/mainwindow.cpp:614-626 | a directory is recorded exactly when it was missing and mkdir succeeded; a mount exactly when it succeeded, as the last command |
| Resolver.MountPlanRecorded | src/mainwindow.cpp:552-627 | one call records at most one directory, one mount and one mapping; these lie under MOUNT_BASE; a recorded mount is the returned mount point |
| Resolver.UnderBaseIsUnderBase | src/mainwindow.cpp:614-616 | a directory made from MOUNT_BASE and a name lies under MOUNT_BASE |
| Resolver.PlainMountRecorded | src/mainwindow.cpp:609-626 | the plain branch keeps the recording rules |
| Resolver.LuksMountRecorded | src/mainwindow.cpp:583-607 | the LUKS branch keeps the recording rules |
| Resolver.MountRootPartition | src/mainwindow.cpp:554-559 | the root partition, by name or /dev/ path, gives "/" with nothing run or recorded |
| Resolver.MountFoundByFindmnt | src/mainwindow.cpp:577-581 | a mount point findmnt reports is returned verbatim with nothing recorded |
| Resolver.LazyBootField | src/mainwindow.cpp:374 | the lazy source group ends where ` /boot ` follows it |
| Resolver.LazySkip | src/mainwindow.cpp:374 | the lazy group extends past every length at which the rest fails |
| Resolver.BootLineSource | src/mainwindow.cpp:374-386 | a line `<source> /boot <rest>` gives the trimmed source with `\040` turned into spaces |
| Resolver.EfiLineIsNotBoot | src/mainwindow.cpp:374-383 | a line mounting /boot/efi is not the /boot line |
| Resolver.BootSourceFirst | src/mainwindow.cpp:375-390 | the source comes from the first trimmed, non-comment line that mounts /boot |
| Resolver.BootSourceNone | src/mainwindow.cpp:375-393 | with no such line there is no source |
| Resolver.BootSourceSkip | src/mainwindow.cpp:375-390 | lines before the first /boot line do not change the source |
| Resolver.FindBootSource | src/mainwindow.cpp:375-390 | the loop with its break computes that source |
| Resolver.BootLocationMeaning | src/mainwindow.cpp:361-410 | no fstab gives the mount point; no /boot line gives `<root>/boot` exactly when it exists, else the root; a failed mount of the source gives the root |
| Resolver.CleanupArgsRoundTrip | src/mainwindow.cpp:84-93 | the helper reads the cleanup arguments back into exactly the three manifests |
| Resolver.RecordedNoFlag | src/mainwindow.cpp:84-93 | a recorded directory, mount or mapping is never mistaken for a group flag |
| Resolver.ParseGroup | src/mainwindow.cpp:84-93 | a group flag followed by items without flags adds exactly those items to that group |
| Resolver.Session.CleanupArgs | src/mainwindow.cpp:84-93 | the destructor's arguments parse back to the session's manifests |
| Resolver.Session.Teardown | src/mainwindow.cpp:84-98 | the cleanup helper runs with those arguments, then the log copy |
| Resolver.Session.OpenLuks | src/mainwindow.cpp:1012-1042 | the mapping is appended only on success; the passphrase buffer is all SCRUB_BYTE on both luksOpen outcomes |
| Resolver.Session.AttachDir | src/mainwindow.cpp:614-626 | the manifests grow by what AttachMeaning says was created |
| Resolver.Session.MountPartition | src/mainwindow.cpp:552-627 | returns what the plan returns and appends its recordings, keeping every recorded entry under MOUNT_BASE |
| Resolver.Session.MountUnmounted | src/mainwindow.cpp:583-626 | a device findmnt has no mount for is unlocked and mounted as the plan says, and the manifests grow by its recordings |
| Resolver.Session.constructor | src/mainwindow.cpp:81-101 | a new session has recorded nothing |
| Resolver.Session.GetBootLocation | src/mainwindow.cpp:361-410 | returns the boot location the plan describes and appends what it mounted |
| Resolver.ResolveDevice | src/mainwindow.cpp:561-578 | the blkid steps give the device and the commands the plan names |
| StubInstaller.CheckSizeEsp | src/mainwindow.cpp:692-704 | the files fit exactly when kernel, initrd and microcode need no more than the ESP has free, equal sizes included |
| StubInstaller.CheckSizeWithoutUcode | src/mainwindow.cpp:694-696 | absent microcode counts as 0 |
| StubInstaller.SizedFilesAreCopied | src/mainwindow.cpp:439-463 | the kernel and initrd checkSizeEsp counts are the ones copyKernel copies |
| StubInstaller.CopyItems | src/mainwindow.cpp:455-456 | four files are copied: kernel, initrd, amd and intel microcode |
| StubInstaller.CopyAllMeaning | src/mainwindow.cpp:458-479 | the copy succeeds exactly when every file copies cleanly; then there is one cp per file present, in order; every command but the last succeeds |
| StubInstaller.CopyFiles | src/mainwindow.cpp:458-479 | the copy loop computes that outcome |
| StubInstaller.CopyKernel | src/mainwindow.cpp:412-483 | copyKernel computes the plan: mkdir -p when the target is missing, then the loop |
| StubInstaller.MissingKernelFails | src/mainwindow.cpp:470-473 | a missing kernel fails the copy |
| StubInstaller.CopyKernelCommands | src/mainwindow.cpp:425-478 | copyKernel runs only mkdir and cp |
| StubInstaller.PartNumberOf | src/mainwindow.cpp:499-500 | the partition number is a run of digits |
| StubInstaller.FindDisk | src/mainwindow.cpp:491-498 | the drive loop computes the disk |
| StubInstaller.DiskOfMeaning | src/mainwindow.cpp:491-498 | no disk exactly when no drive name starts the ESP's name; otherwise the first such drive, as a /dev/ path |
| StubInstaller.PartNumberExamples | src/mainwindow.cpp:499-500 | /dev/sda1 gives 1, /dev/nvme0n1p12 gives 12, /dev/sda gives nothing |
| StubInstaller.InitrdChainClauses | src/mainwindow.cpp:524-530 | the initrd chain is amd microcode, then intel microcode, each when present, then the initrd, always last, joined by spaces |
| StubInstaller.InitrdClauseNotEmpty | src/mainwindow.cpp:517-519 | every initrd clause is non-empty |
| StubInstaller.ChainInitrds | src/mainwindow.cpp:515-530 | the clauses appended one by one give that chain for the files on the ESP |
| StubInstaller.ChainAsBuilt | src/mainwindow.cpp:524-530 | appending with a space before all but the first clause gives the chain |
| StubInstaller.InstallEfiStub | src/mainwindow.cpp:485-545 | installEfiStub computes the plan |
| StubInstaller.InstallMeaning | src/mainwindow.cpp:487-541 | no efibootmgr runs when the ESP is empty, copying fails, no drive prefixes the ESP or it has no number; a created entry ends its options with the initrd chain |
| Legacy.MountPlanMeaning | mainwindow.cpp:436-467 | a directory is recorded only for a missing /mnt/<device> mkdir created; a mount only when it succeeded, as the returned directory; a LUKS device records nothing |
| Legacy.DevPrefixStripped | mainwindow.cpp:438-440 | a /dev/ prefix is removed |
| Legacy.BootFieldOfLine | mainwindow.cpp:299-301 | a line whose second field is /boot gives its first field |
| Legacy.DeviceOfSource | mainwindow.cpp:312-315 | `UUID=x` becomes /dev/disk/by-uuid/x and other sources stay as they are |
| Legacy.FindBootSource | mainwindow.cpp:291-304 | the fstab loop stops at the first entry line whose second field is /boot |
| Legacy.BootOfMountedMeaning | mainwindow.cpp:284-324 | no /boot line gives the mount point; otherwise the source's mount point, or the root when mounting fails |
| Legacy.LegacySession.Teardown | mainwindow.cpp:76-81 | one umount per mount, the last recorded first, then one rmdir per directory in recording order |
| Legacy.LegacySession.MountPartition | mainwindow.cpp:436-467 | returns the plan's mount point and appends its recordings |
| Legacy.LegacySession.GetBootLocation | mainwindow.cpp:272-325 | mounts the chosen partition if need be, then follows fstab, recording what it mounted |
| Legacy.LegacySession.MountUnderMnt | mainwindow.cpp:454-466 | the plain branch mounts at /mnt/<device> as the plan says and appends its recordings |
| Legacy.LegacySession.SystemMountPoint | mainwindow.cpp:274-282 | getMountPoint first, mountPartition only when nothing is mounted |
| Legacy.LegacySession.BootOfMountPoint | mainwindow.cpp:284-324 | the fstab part returns the location BootOfMountedMeaning describes |
| Legacy.LegacySession.constructor | mainwindow.cpp:73-83 | a new session has recorded no mount and no directory |
| Legacy.LuksMountPoint | mainwindow.cpp:442-447 | the LUKS branch returns an existing mount point or the mapper name, recording nothing |
| Legacy.OpenLuks | mainwindow.cpp:764-793 | the same commands and mapper name as the newer openLuks; the passphrase buffer is all 0xA5 afterwards |
| Legacy.CheckSizeEsp | mainwindow.cpp:491-501 | the files fit exactly when kernel plus initrd need no more than the ESP has free |
| Legacy.CheckSizeAgrees | mainwindow.cpp:480-502 | where the versioned files exist and there is no microcode, both revisions decide alike |
| QtText.TrimmedShape | src/mainwindow.cpp:384 | trimmed() removes white space from both ends, is idempotent and returns a slice of its input |
| QtText.JoinSplitBy | src/mainwindow.cpp:1935 | joining the parts of a split gives back the string |
| QtText.SplitSkipEmptyJoin | src/mainwindow.cpp:814 | splitting a join of non-empty, separator-free parts with empty parts skipped gives back the parts |
| QtText.ToInt | src/utils.cpp:27-33 | toInt of a digit string is its value, or 0 when it does not fit in an int |
| QtText.LexLessTransitive | src/utils.cpp:18 | QString's operator< is transitive |
| QtText.LexLessTotal | src/utils.cpp:18 | QString's operator< is total and asymmetric |

## Left out

- Widgets, dialogs and message boxes are not modelled. A confirmation or passphrase dialog is a parameter: `confirmed`, or a function from partition to an optional passphrase.
- Starting processes is not modelled. `Cmd` (QProcess, elevation, waiting) is the `Runner` parameter, and its output is standard output and standard error together, trimmed (src/cmd.cpp:67-71).
- Every `Host.Outcome` carries an output; the model takes it as always assigned. `Cmd::proc` returns false without assigning it when an earlier elevation failed (src/cmd.cpp:80-82), when the process is still running (85-88), when neither pkexec nor gksu is found (96-100), when the program fails to start (128-131) and when an elevated run exits 126 or 127 (134-138). The missing elevation program and the 126/127 exit also set the sticky elevation failure (handleElevationError, src/cmd.cpp:154-163), so every later command fails and the application quits.
- Resolver.ResolvedDevice: at src/mainwindow.cpp:573 blkid's output variable is `part` itself, so on those paths findmnt (577) runs on the `UUID=`/`LABEL=` token unchanged. The model uses the Runner's output; a Runner covers that case only by returning the token as blkid's output.
- `grep -oP` runs outside the program. getFallbackOptions gets its output from the `Runner`; only the command and the assembly of its answers are modelled.
- formatSize uses floating point, so it is a parameter of the rows.
- JSON decoding of lsblk's output is a library call. The model receives the records already decoded.
- Devices.DeviceLists.ListDevices: does not model the locale-dependent QCollator numeric sort of the four partition lists; its contract states the rows in lsblk's order.
- Utils.InsertionSort: std::sort is an unstable introsort. The model sorts by insertion, and its contract (sorted, a permutation) is all std::sort promises; names the comparator finds equivalent may come out in another arrangement.
- File-system queries (QFile::exists, QDir::exists, symlinks, sizes, free space) are the `Files` parameter. File contents are a `readFile` parameter.
- StubInstaller.CheckSizeEsp: does not model qint64 overflow of the summed sizes, because sizes are unbounded integers here.
- The cleanup helper `uefimanager-lib` is not part of this model. Only the arguments the destructor hands it are modelled. `ParseCleanupArgs` states how those arguments read back; it is a reference reading, not the helper's code.
- Case-insensitive comparisons and toLower are modelled on ASCII letters only.
- Text files are read as lines split on `\n`. Every reader trims lines or matches a non-empty prefix, so a `\r` before it or a final empty line changes nothing.
- checkSizeEsp (src/mainwindow.cpp:662, mainwindow.cpp:483) and copyKernel (src/mainwindow.cpp:432-436) take their source directory from getBootLocation(); the model takes that directory as `StubSetup.sourceDir` for both. installEfiStub takes the entry name and options as the tab's text fields.
- StubInstaller.CopyKernelPlan: copyKernel calls getBootLocation() after the `mkdir -p` (src/mainwindow.cpp:425-436), so the mounts and mount records it makes fall between the mkdir and the cp commands; the plan's command list leaves them out.
- The older revision's LUKS branch of mountPartition returns a mapper name and mounts nothing. It is modelled as written.
- The legacy functions identical to their `src/` counterparts are modelled once, by the `src/` member.

## Findings

| source | as written | input that shows it | evidently intended | confidence | as-written member | corrected member |
|---|---|---|---|---|---|---|
| src/utils.cpp:55-61 | the lazy `^(.*?)(\d+)$` strips the trailing digits of whole-disk NVMe and MMC names | `nvme0n1` gives `nvme0n`, `mmcblk0` gives `mmcblk` | whole disks come back unchanged, as tests/test_utils.cpp:94-95 expect | not executed | Utils.ExtractDiskWholeDisk | Utils.CorrectedWholeDisks |
| src/mainwindow.cpp:2017 | only the SATA alternative of the device pattern carries `/dev/`, while sfdisk prints `/dev/nvme0n1p1` | `/dev/nvme0n1p1` and `/dev/mmcblk0p1` fail the check, so renaming refuses every NVMe and SD/MMC entry | every alternative starts with `/dev/` | not executed | RenameEntry.NvmeEntryRefused | RenameEntry.NvmeEntryProceeds |
