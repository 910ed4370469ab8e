# ida-minsc: tags, addresses and hotkeys, modelled in Dafny

This project models two parts of the ida-minsc library: the tag store and
address helpers in `base/database.py`, and the hotkey cache and console
helpers in `misc/ui.py`. The host disassembler's storage is an explicit state
record: the two comment slots per address, the global and contents reference
indexes, and the names, extra comments and item colours.

- **Tag store.** `database.tag` reads, writes and deletes the tags of an
  address. It merges the repeatable and non-repeatable comment slots and
  reports the implicit tags `__name__`, `__extra_prefix__`,
  `__extra_suffix__` and `__color__`. Every stored key is counted in the
  index of the address's scope. The pure transitions are in
  `tagstore.dfy`. The class `Database.Database` (`database.dfy`) runs the
  same steps on fields.
  - `Tag`, `Untag`, `SetColor` and `ClearColor` are each proved to leave
    the fields and result that the transitions `TagStore.Set`,
    `TagStore.Delete`, `TagStore.SetColor` and `TagStore.ClearColor` give.
  - `Erase` and `EraseCorrected` are loops over the listed keys. Their
    contracts state the outcome directly: the colour, the implicit tags, the
    keys left and the other addresses.
  - `Tag`, `SetColor`, `ClearColor` and `EraseCorrected` always preserve
    the index invariant `Consistent`.
  - `Untag` preserves it when the delete succeeds, or when the
    non-canonical slot holds no key the canonical one lacks. A failed delete
    can break it (`TagStore.FailedDeleteDropsOtherSlot`).
  - `Erase` preserves it when it succeeds.
- **Supporting pieces.**
  - The tag codec round trip (`codec.dfy`) and the reference indexes with
    their `inc`/`dec` (`refindex.dfy`).
  - The colour byte swap (`colors.dfy`).
  - The boolean queries `select` and `selectcontents` (`select.dfy`).
  - `get.unsigned`/`get.signed` (`integers.dfy`).
  - The space collapse of `instruction`/`disassemble` and the blank-line
    padding of `extra` comments (`text.dfy`).
  - `within`, `offset`, `translate`, `block` and the `set.alignment`
    exponent loop (`addresses.dfy`).
- **Hotkeys.** `keyboard.__normalize_key__` and `__of_key__` are functions
  (`hotkeys.dfy`). `keyboard.__cache__` is the field of the class
  `Hotkeys.Keyboard`, whose `Map` and `Unmap` change it.
- **Console.** `ConsoleProgress.update` changes the fields of
  `Ui.ConsoleProgress`. `ask` is a method whose default button is picked
  from the keyword set (`ui.dfy`).

Calls into the host are parameters or inputs. These include the bytes
`get.unsigned` reads, the database bounds and base address, the separator
the separator set yields first, what `add_hotkey`/`del_hotkey` report, and
the code the dialog returns.

Where the docstrings and the code disagree, the model follows the code:

- `ask`'s docstring promises the default on cancel. The code returns `None`
  for any code other than yes or no, and `Ui.Answer` does the same.
- The implementation of `internal.comment` (the codec and the reference
  indexes) is not part of this model. Its behaviour is given a concrete
  definition here:
  - `Codec.Encode` and `Codec.Decode` over a datatype of comment contents,
    whose round trip is proved, not assumed.
  - `RefIndex.Inc` and `RefIndex.Dec` count a name once per address that
    holds it.

## Model

| member | source | states |
|---|---|---|
| Codec.Decode | base/database.py:1565-1567 | A missing comment, or one that holds plain text, decodes to no tags |
| Codec.Encode | base/database.py:1577-1578 | Decoding an encoded tag dictionary gives the same dictionary back |
| RefIndex.Inc | base/database.py:1570-1574 | The name is recorded at the address, and no other address changes |
| RefIndex.Dec | base/database.py:1616-1620 | The name is forgotten at the address, and no other address changes |
| RefIndex.IncKeepsValid | base/database.py:1570-1574 | inc keeps the index well formed; a name's count grows by one only when the address did not hold it |
| RefIndex.DecKeepsValid | base/database.py:1616-1620 | dec keeps the index well formed; a name's count drops by one only when the address held it |
| RefIndex.IncThenDec | base/database.py:1570-1620 | Recording a new name and forgetting it again restores every count and every address's names |
| RefIndex.NamesAreRecorded | base/database.py:1469-1471 | The index's names are exactly the names recorded at some address |
| Colors.ToRaw | base/database.py:1182-1185 | The raw value is 24-bit, with red and blue swapped |
| Colors.FromRaw | base/database.py:1170-1174 | Gives no colour exactly for the default value; otherwise a 24-bit colour with the bytes swapped back |
| Colors.ColorRoundTrip | base/database.py:1170-1185 | Reading a 24-bit colour back after setting it gives the same colour |
| Colors.SwapIsInvolution | base/database.py:1182-1185 | Swapping red and blue twice gives the colour back |
| TagStore.Stored | base/database.py:1489-1503 | The merged tags have the keys of both slots, and the canonical slot wins on a shared key |
| TagStore.SetDefault | base/database.py:1505-1513 | Keeps every existing key, and adds only the given key, with the given value |
| TagStore.Read | base/database.py:1479-1513 | tag(ea) has every stored tag, and every implicit tag that is present; an unstored key comes from an implicit tag |
| TagStore.Get | base/database.py:1532-1537 | tag(ea, key) gives a stored value, else a present implicit value, else MissingTagError |
| TagStore.AsInt | base/database.py:1553-1554 | An int stands for itself and a bool for 1 or 0; nothing else is an integer |
| TagStore.SetAttribute | base/database.py:1547-1554 | An implicit key goes to its setter. Names and extra comments accept a string, and the colour accepts an int or a bool; any other value raises with nothing changed. A name or extra comment returns the one it replaces, as its getter read it (None when there was none, and for an empty name). No comment slot, index, other implicit tag or other address changes. A string reads back as written, except that an empty name reads as absent; a 24-bit colour reads back as written |
| TagStore.SetColor | base/database.py:1182-1185 | Only the colour of the address changes; the address is coloured, and a 24-bit colour reads back as given |
| TagStore.RemoveAttribute | base/database.py:1592-1598 | An implicit key is removed from its attribute and the removed name or comment is returned, as its getter read it (None when there was none, and for an empty name); no other attribute, address, slot or index changes |
| TagStore.Set | base/database.py:1541-1579 | None is refused with InvalidParameterError and nothing changes; an implicit key gives exactly what its setter gives; any other key is stored in the canonical slot, the other slot is cleared when it held tags and kept otherwise, the key is counted, and the previous value is returned |
| TagStore.Store | base/database.py:1556-1579 | The key is stored with the given value on top of both slots merged. The other slot is cleared when it held tags, and a plain comment there is kept. A new key is counted in the index of its scope and nowhere else, the attributes and other addresses are untouched, and the previous value (or None) is returned |
| TagStore.Delete | base/database.py:1588-1623 | An implicit key gives exactly what its remover gives. Any other key first clears the other slot when it held tags, keeping a plain comment there. It then fails with MissingTagError if the key is not stored, or removes it, uncounts it and returns its value |
| TagStore.SetKeepsConsistent | base/database.py:1541-1579 | Setting a tag keeps every index in step with the stored keys |
| TagStore.DeleteKeepsConsistent | base/database.py:1588-1623 | A successful delete keeps the indexes in step, as does a failed one when the other slot holds no extra key |
| TagStore.FailedDeleteDropsOtherSlot | base/database.py:1608-1612 | A delete of a missing key loses the tags that only the other slot held, while the index still counts them |
| TagStore.SetThenDelete | base/database.py:1541-1623 | Setting a new key and deleting it returns the value set and leaves the stored tags as they were |
| TagStore.SetThenDeleteKeepsCounts | base/database.py:1541-1623 | Setting a new key and deleting it leaves every count in the scope index as it was |
| TagStore.GlobalIndexOutsideFunctions | base/database.py:1570-1574 | An address inside a function is never listed in the global index |
| TagStore.GlobalCountIsStoredCount | base/database.py:1570-1574 | A name's global count is the number of addresses outside functions that store it |
| TagStore.TagNamesAreStoredNames | base/database.py:1469-1471 | tags() lists exactly the names stored at some address outside a function |
| TagStore.DeleteEffect | base/database.py:1588-1623 | One delete either removes the key and its implicit value, or fails on an unstored key; other addresses are untouched |
| TagStore.EraseFailsOnColour | base/database.py:1153-1157 | erase fails exactly when the address has a colour and no stored `__color__` tag |
| TagStore.ColouredAddressFailsErase | base/database.py:1153-1157 | An untagged address coloured 0x0000ff lists `__color__`, and erasing it fails |
| TagStore.EraseStep | base/database.py:1153-1157 | Deleting one more listed key either fails on the unstored colour, or keeps the erase invariant for the keys left |
| TagStore.EraseStepSkippingColor | base/database.py:1153-1157 | With the colour left out, every delete of a listed key succeeds and keeps the invariant |
| TagStore.EraseFinish | base/database.py:1153-1157 | Once every key is deleted and the colour cleared, no implicit tag is left, only originally stored keys remain, and other addresses are as before |
| TagStore.ClearColor | base/database.py:1177-1179 | Afterwards the address reads as uncoloured |
| Database.Database.Tag | base/database.py:1541-1579 | The fields after the call and the result are those of the Set transition; the indexes stay consistent |
| Database.Database.StoreTag | base/database.py:1556-1579 | The comment path of tag(ea, key, value) leaves the fields and result of the Set transition |
| Database.Database.Untag | base/database.py:1588-1623 | The fields after the call and the result are those of the Delete transition; consistency is kept whenever the delete keeps it |
| Database.Database.RemoveTag | base/database.py:1603-1623 | The comment path of tag(ea, key, None) leaves the fields and result of the Delete transition |
| Database.Database.SetColor | base/database.py:1182-1185 | The fields after the call are those of the SetColor transition, a 24-bit colour reads back unchanged, and the indexes stay consistent |
| Database.Database.ClearColor | base/database.py:1177-1179 | The address reads as uncoloured; only the colour changes |
| Database.Database.Erase | base/database.py:1153-1157 | Succeeds exactly when erase does not fail on the colour, with MissingTagError and the colour kept on failure; on success it leaves no colour and no implicit tag, and other addresses are unchanged |
| Database.Database.EraseCorrected | base/database.py:1153-1157 | Always leaves the address with no colour and no implicit tag, keeps only keys that were stored, changes no other address, and keeps consistency |
| Select.SelectRequiring | base/database.py:1657-1674 | With a non-empty And, an address is reported exactly when it holds every And name, and then with at least those names |
| Select.ArgNames | base/database.py:1645-1646 | A single name stands for itself; no argument stands for no names |
| Select.IteratedNames | base/database.py:1634 | A single name given without wrapping stands for its characters |
| Select.Matched | base/database.py:1657-1674 | No query reports every tag; otherwise an address with all of And is reported with the And and Or tags it has, and any other address with nothing |
| Select.Select | base/database.py:1639-1674 | Exactly the addresses with a non-empty match are reported, each with its match |
| Select.SelectIsFilter | base/database.py:1657-1674 | The addresses are visited in the order the index lists them: select over a listing split in two is the two results in turn, and one address gives its match or nothing |
| Select.SelectOncePerAddress | base/database.py:1657-1674 | An index listing each address once yields each address at most once |
| Select.SelectTagged | base/database.py:1631-1635 | And becomes the characters of a single And name, plus the positional tag and names. Every address is reported exactly when it holds all of them, with what select matches for that query, and nothing else is reported |
| Select.SelectTaggedCorrected | base/database.py:1631-1635 | As SelectTagged, with a single And name kept as one name: exactly the addresses holding every required name are reported, each with its match |
| Select.MatchedNames | base/database.py:1721-1734 | No query reports every name. Otherwise a name is reported exactly when the function carries all of And, and the name is in And, or is an Or name the function carries |
| Select.SelectContentsReports | base/database.py:1708-1734 | Once a query is given, a function is reported exactly when it carries every And name and, with no And name, at least one Or name |
| Select.SelectContents | base/database.py:1690-1735 | Exactly the functions with a non-empty match are reported, each with its match |
| Select.SelectContentsIsFilter | base/database.py:1708-1734 | The functions are visited in the order the index lists them: a listing split in two gives the two results in turn, and one function gives its names or nothing |
| Select.SelectContentsOncePerAddress | base/database.py:1708-1734 | An index listing each function once yields each function at most once |
| Select.SelectContentsTagged | base/database.py:1682-1686 | Or becomes the characters of a single Or name, plus the positional tag and names. A function is reported exactly when it carries every And name and, with no And name, one of those names, with what selectcontents matches for that query; nothing else is reported |
| Select.SelectContentsTaggedCorrected | base/database.py:1682-1686 | As SelectContentsTagged, with a single Or name kept as one name |
| Select.OrReportsAnyMatch | base/database.py:1657-1674 | With only Or, an address is reported exactly when it has one of the names |
| Select.AndReportsOnlyFullMatch | base/database.py:1657-1674 | With only And, an address is reported exactly when it has every name, with those names alone |
| Select.ContentsAgreesWithSelect | base/database.py:1721-1734 | selectcontents reports the same names that select reports for the same tags |
| Select.ScalarAndIsIterated | base/database.py:1634 | `select("t", And="ab")` misses an address tagged "t" and "ab" |
| Select.ScalarAndIsOneName | base/database.py:1634 | The corrected overload reports that address |
| Select.ScalarOrIsIterated | base/database.py:1685 | `selectcontents("t", Or="ab")` misses a function with "ab"; the corrected overload reports it |
| Integers.Pow2Add | base/database.py:5188-5192 | Powers of two multiply by adding exponents |
| Integers.FoldBytes | base/database.py:5188-5192 | The folded bytes fit in 8 bits per byte |
| Integers.FoldToBytes | base/database.py:5188-5192 | Folding the big-endian bytes of a number gives the number back |
| Integers.ToBytesFold | base/database.py:5188-5192 | Writing the folded value as bytes of the same length gives the bytes back |
| Integers.Unsigned | base/database.py:5188-5192 | The value fits in the bytes, and its big-endian bytes are the data (reversed, for little-endian) |
| Integers.Signed | base/database.py:5218-5221 | The value lies in the signed range, agrees with the unsigned value modulo 2**bits, and equals it exactly when the top bit is clear |
| Integers.ByteOrderSwap | base/database.py:5188-5192 | Reversed bytes read little-endian equal the bytes read big-endian |
| Integers.UnsignedRoundTrip | base/database.py:5188-5192 | Reading back the bytes written for a value that fits gives the value |
| Text.Collapse | base/database.py:529 | The collapsed text is no longer than the input and ends as the input does |
| Text.CollapseHasNoDoubleSpace | base/database.py:529 | The collapsed text has no two spaces in a row |
| Text.CollapseKeepsNonSpaces | base/database.py:560 | Collapsing keeps every character other than a space, in order |
| Text.CollapseKeepsSingleSpaced | base/database.py:560 | Text without a double space comes back unchanged |
| Text.DoubleSpaceIsOneSpace | base/database.py:529 | Two spaces in a row collapse exactly as one space does, wherever they stand |
| Text.CollapseIsIdempotent | base/database.py:529 | Collapsing twice is collapsing once |
| Text.InsertSpace | base/database.py:4556-4558 | The text is unchanged, the number of leading lines grows by the count, and the comment is removed exactly when nothing is left |
| Text.AppendSpace | base/database.py:4561-4563 | The text is unchanged, the number of trailing lines grows by the count, and the comment is removed exactly when nothing is left |
| Text.InsertSpaceUndo | base/database.py:4556-4558 | Adding blank lines ahead of a comment and removing them gives the comment back |
| Text.AppendSpaceUndo | base/database.py:4561-4563 | Adding blank lines after a comment and removing them gives the comment back |
| Addresses.Offset | base/database.py:989-992 | An address's offset is negative exactly when it lies before the base address, and zero exactly at the base |
| Addresses.OffsetThenTranslate | base/database.py:989-992 | Translating the offset of an address gives the address back |
| Addresses.Translate | base/database.py:995-998 | The offset of a translated offset is that offset |
| Addresses.Block | base/database.py:571-577 | The read starts at the lower bound and ends at the higher one |
| Addresses.BlockIsSymmetric | base/database.py:571-577 | The order of the bounds does not matter |
| Addresses.BlockIsWithin | base/database.py:49-52 | When both ends are within the database bounds, every address the block reads is within them too |
| Addresses.AlignmentExponent | base/database.py:4810-4814 | The largest exponent up to 13 whose power of two divides the end address, or 0 when none does |
| Addresses.OddTargetIsUnaligned | base/database.py:4810-4814 | No power of two from 2 to 2**13 divides the end address exactly when it is odd |
| Common.Capitalize | misc/ui.py:554 | The first character is upper-cased and every other character lower-cased, so the word keeps its length and its lower-case form |
| Hotkeys.Split | misc/ui.py:577-583 | The pieces are at least one, and none holds a separator |
| Hotkeys.SortedModifiers | misc/ui.py:585-601 | Lists the modifier names present, each once, in sorted order ("alt" before "ctrl" before "shift") |
| Hotkeys.FirstKey | misc/ui.py:591-596 | When some piece is not a modifier, the key is the lower-case form of such a piece |
| Hotkeys.NormalizeText | misc/ui.py:558-601 | A refused combination raises InvalidParameterError |
| Hotkeys.NormalizeTextMeaning | misc/ui.py:558-601 | A combination is accepted exactly when, besides the modifiers, one part of one character is left; the result is normalised, with that key and exactly the modifiers given |
| Hotkeys.NormalizeKey | misc/ui.py:558-601 | A tuple is normalised as its joined text; an accepted result is normalised, and a refused one raises InvalidParameterError |
| Hotkeys.Capitalized | misc/ui.py:554 | Each part is capitalised |
| Hotkeys.OfKey | misc/ui.py:540-555 | Only a tuple is accepted; anything else raises InvalidParameterError |
| Hotkeys.SplitJoin | misc/ui.py:577-583 | Splitting parts joined by a separator gives the parts back |
| Hotkeys.OfKeyRoundTrip | misc/ui.py:540-601 | Normalising the host's text for a normalised pair gives the pair back |
| Hotkeys.NormalizeIsIdempotent | misc/ui.py:558-601 | Normalising a normalised pair gives it back |
| Hotkeys.SpellingDoesNotMatter | misc/ui.py:577-601 | Two spellings with the same lower-case parts normalise alike, whatever the separator, case and order |
| Hotkeys.RemapReplaces | misc/ui.py:607-654 | Mapping one combination under two spellings, with the host accepting both, keeps a single cache entry: the second callable replaces the first, and the second map returns the first |
| Hotkeys.Keyboard.constructor | misc/ui.py:604 | The cache starts empty |
| Hotkeys.Keyboard.Map | misc/ui.py:607-654 | A bad key is refused and nothing changes; a mapped key whose removal fails is refused unchanged; a failed add leaves the key unmapped; otherwise the key maps to the new callable, the old one is returned, and nothing else changes; the cache stays normalised |
| Hotkeys.Keyboard.Unmap | misc/ui.py:657-696 | By key: an unmapped key gives None, a failed removal changes nothing, otherwise the entry is removed and its callable returned. By callable: an unknown one is refused, otherwise one of its entries is removed |
| Ui.DefaultNames | misc/ui.py:49-51 | The lower-case names of exactly the keywords given a true value |
| Ui.Answer | misc/ui.py:48-56 | 0 is no, 1 is yes, anything else is None |
| Ui.Ask | misc/ui.py:39-56 | No true keyword opens on cancel; a true keyword other than yes, no or cancel raises KeyError; otherwise the dialog opens on one of the named buttons, and the reply is interpreted by Answer |
| Ui.SingleDefault | misc/ui.py:47-55 | One true keyword naming a button opens the dialog on that button |
| Ui.Updated | misc/ui.py:972-991 | min and max replace the bounds when given; value, else current, replaces the value |
| Ui.UpdateIsIdempotent | misc/ui.py:972-991 | Updating twice with the same options is updating once |
| Ui.EmptyUpdateKeepsBar | misc/ui.py:972-991 | An update with no options changes nothing |
| Ui.PropertiesAsWritten | misc/ui.py:960-962 | Reading any of minimum, maximum or current raises |
| Ui.Properties | misc/ui.py:960-962 | The bar's own bounds and value, which an update giving them leaves unchanged |
| Ui.PropertiesReadBack | misc/ui.py:960-991 | After an update the corrected properties read the new bounds and value back, where the written ones raise |
| Ui.ConsoleProgress.constructor | misc/ui.py:953-957 | The bar starts at value 0, bounds 0 and 0 |
| Ui.ConsoleProgress.Update | misc/ui.py:972-991 | Returns the value held before the call, and the bar becomes the updated bar |

## Left out

- Host I/O. Reading and writing comments, names, extra comments and colours is modelled as updates of a state record, not as calls into the host. The bytes that `get.unsigned` reads, the database bounds, the base address, and the results of `add_hotkey`, `del_hotkey` and `ask_yn` are inputs.
- Logging, the overloads that use the current address, and the address validation in `interface.address.inside` and `interface.address.within`: these are either output or calls into other modules.
- `function.tag`, which `select` uses for addresses inside functions. The entries `select` and `selectcontents` go through are an input.
- The grouping of the contents index per function. The contents index is kept per address.
- The wire format of `internal.comment.encode`/`decode` and the bodies of the reference index (`internal.comment.globals`/`contents`). These are not part of this model; `Codec` and `RefIndex` give them a definition.
- Case mapping beyond ASCII. `Common.Lower` and `Common.Capitalize` map only A-Z and a-z.
- The order of Python's sets and dictionaries:
  - `Hotkeys.NormalizeKey`: the separator used to join a tuple is a parameter, since it is whichever element the separator set yields first;
  - `Ui.Ask`: the default button is any of the true keywords;
  - `Hotkeys.Keyboard.Unmap`: any matching entry is taken.
- `set.alignment` with an explicit `align` or `alignment` works out the exponent with `math.log` on floating point (base/database.py:4803-4806). Only the brute-force loop used when neither is given is modelled (base/database.py:4808-4814).
- `ConsoleProgress`: the printing of text, and values other than integers.
- `Ui.Ask`: the question text and the dialog itself.
- Hotkeys.Keyboard.Unmap: for a callable, the postcondition is stated only when the cache holds normalised pairs. Otherwise the re-normalisation of the key that was found can change it.
- TagStore.SetAttribute: the colour setter returns whatever the host's `set_item_color` returns (base/database.py:1185). The host is not modelled, so the result is None here.
- Hotkeys.Keyboard.Map: popping the replaced mapping and storing the new one is a single update of the cache. No other code observes the state in between.
- Hotkeys.NormalizeKey: in the source a tuple whose length is not two raises ValueError on unpacking, and the modifiers element is iterated item by item, so a string of modifiers such as `("ctrl", "a")` is joined as `c-t-r-l-a` and then refused. `Combo` holds a sequence of modifier names, so neither case can be expressed.
- Hotkeys.NormalizeText: its own contract only names the error raised. What an accepted result holds is stated in `Hotkeys.NormalizeTextMeaning`.
- A concrete spelling example (such as "Ctrl-Shift-A" against "shift+ctrl+a") is not stated as a lemma. `Hotkeys.SpellingDoesNotMatter` covers every spelling.

## Findings

| source | as written | input that shows it | evidently intended | confidence | as-written member | corrected member |
|---|---|---|---|---|---|---|
| base/database.py:1153-1157 | erase deletes every key that `tag(ea)` lists, including the implicit `__color__`, which the delete path does not handle | an untagged address coloured 0x0000ff: the delete of `__color__` raises MissingTagError | erase clears the colour itself and deletes only the other keys | not executed | TagStore.ColouredAddressFailsErase | Database.Database.EraseCorrected |
| base/database.py:1634 | `set(iter(And))` iterates a single `And` name character by character | `select("t", And="ab")` on an address tagged "t" and "ab" reports nothing | a single name stands for itself | not executed | Select.ScalarAndIsIterated | Select.SelectTaggedCorrected |
| base/database.py:1685 | `set(iter(Or))` iterates a single `Or` name character by character | `selectcontents("t", Or="ab")` on a function with only "ab" reports nothing | a single name stands for itself | not executed | Select.ScalarOrIsIterated | Select.SelectContentsTaggedCorrected |
| misc/ui.py:960-962 | the property getters take the bar as `s` but read `self` | reading `minimum` on any ConsoleProgress raises NameError | the getters read the bar's own fields | not executed | Ui.PropertiesAsWritten | Ui.Properties |
