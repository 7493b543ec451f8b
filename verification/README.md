# Verified model of the libraries behind wol

wol wakes machines over the network; the hard code in its source tree is in the libraries that it bundles. This
project models five of them in Dafny 4.11 and proves what they promise:

- **Plural forms** (`Plural*.dfy`): the lexer, the packed LALR tables, the parser loop with its growing stacks and the
  evaluator behind `ngettext`. The tables decide exactly the grammar of `intl/plural.y`, the tree is the one that the
  declared precedence fixes, and an expression printed with the fewest parentheses is read back unchanged, however it is
  spaced and ended, up to the header line of a catalogue that declares it.
- **Message catalogues** (`Catalog*.dfy`, `Bits.dfy`): the hash function in any word size, double hashing with a prime
  table, the two passes over the system dependent strings, and the search by hash table or by bisection, in both byte
  orders; and that a catalogue written to a file is found there again.
- **Bindings and known translations** (`Bindings.dfy`, `Translation*.dfy`): the sorted list of bindings, the counter,
  the table of known translations and the walk through the list of languages, on top of the list of loaded domains; for
  which locale names the table gives the answers of a search, and in which directory a bound domain is looked for.
- **MD5** (`Md5*.dfy`): the buffered context over RFC 1321, for every way of cutting up the input; the constants as
  sines, and two digests of the test suite.
- **getopt** (`Getopt*.dfy`): the rotation of blocks of arguments inside a state machine that is resumed by every call,
  and that what is written on a command line, in whichever way, is what the caller is returned.
- **Formatted output** (`Printf*.dfy`, `Vasnprintf*.dfy`): reading a format, registering argument types, rebuilding a
  directive for `snprintf`, and the growing result with its retry loop; what a format means as it is written.
- **Locale names** (`Locale*.dfy`, `StringOrder.dfy`): cutting a name up in place, the file names made from its parts,
  the list of nodes with what each inherits from, and whether the name as the user spelled it is among the files tried,
  by one lookup and by the next.

`dafny verify dfyconfig.toml` checks everything. Code that changes things in place is modelled by methods over arrays
and by classes; each method is proved against a specification written as functions, and the lemmas about those
functions are the promises.

## How the parts fit together

- *Plural.* `Unpacked` is the automaton written out state by state; `TablesAgree` says that the packed tables decode to
  it, `Run` is a run of it, `RunSound` and `RunFollows` relate a run to derivation trees, and `RunDecidesDerivable` is
  the result: below the stack limit the automaton accepts exactly what the grammar derives, and its tree is that of
  every derivation that conforms to the precedences. `YyParse` is the loop of `yyparse` over arrays that grow; its
  result is that of `Run` on the tokens of the input. Independent of the scanner, `PluralText.dfy` says how tokens are
  written: `LexWritten` reads any spacing back, with a semicolon, a newline or nothing behind it, `Together` says which
  tokens need a blank between them, and `ParseOperator` goes from the text of an operation to its value in C.
- *Catalogue.* `TableFor` says that a hash table finds every key; `Insert` keeps it, `SearchTable` uses it, and
  `EverySlotVisited` is why probing ends. `FirstPass` and `SecondPass` are tied to the same list `Sizes`, which is why
  the second pass finds the pairs that the first counted and fills the memory that it measured. `Written` says, byte by
  byte and struct by struct, what a file with a catalogue is; `FindWritten` loads any such file and finds in it exactly
  what was written, and `Encode` is one such file for every catalogue.
- *Translations.* `Step` is a call of the system as it is, with its table of known translations, and `PlainStep` one of
  a system that searches every time; the methods of `Gettext` (`TranslationState.dfy`), which work on the real list of
  loaded domains, are proved to be `Step`. `Coherent` says that every entry of the table that still counts is what a
  search would give. Where the names are `Steady`, every call keeps it (`StepRight`), so that any interleaving of calls
  gives the answers of the plain system (`SameOutputs`, and `Run` for the methods). Plain names are steady
  (`PlainSteady`). With one language for each category the condition is exact: the answers are always the same if and
  only if no name of a language has two forms (`AlwaysTheSameIf`); see below for names that have. `Reached`,
  `NotReached` and `ReachedInList` are whole runs, from the binding of a domain to the answer, that name nothing but
  files.
- *MD5.* `Absorbed(msg)` says that a context has taken in `msg`; every call keeps it, and `Finish` turns it into the
  digest `Md5(msg)`. What `Md5` is does not rest on its own tables: `TableOfSines` derives the 64 constants from any two
  functions with the properties of sine and cosine, by interval arithmetic, and `EmptyDigest` and `AbcDigest` evaluate
  all 64 operations row by row.
- *getopt.* `Future` and `Mask` are a plain reading of the original arguments from left to right; `Layout` says where
  the elements are while they are being permuted. `ScanAll` is a whole run: what the caller is returned, the final
  vector and `optind`. `GetoptRender.dfy` lists the ways of writing options and operands; `ReadLine` shows that the
  plain reading gives back what was written, and `ScanRendered` that a caller gets it.
- *Formatted output.* `Tiled` says what it means to cut a format into literal text and directives; `ScanExactly` shows
  that this can be done in one way only, and `Parse` does it. `Meaning` is the output of a format; `Vasnprintf` and
  `LibintlVsnprintf` produce it. `MeaningWritten` says what it is for a format that is put together from text and
  directives, `TakenInOrder` and `TakenByNumber` which arguments those take, and `RereadAlike` that `snprintf` is handed
  a directive that means the same to it.
- *Locale names.* `CutsOf` says where a name is cut, `NothingLost` that rejoining the pieces gives it back, `SplitBack`
  that splitting joined pieces gives them back. `L10nList.Valid` is the invariant of the list: strictly descending, and
  every node complete. A `Listing` is the list as a table, from the name of a node to the names it leads to; `Enter`
  says what a request adds to it, `L10nList.Make` does that, and `Entering` says that it disturbs nothing. `FindDomain`
  says exactly when the spelling of a name is among the files tried, `FindTwice` when a second lookup differs from the
  first. `SplitXpg` and `SplitCen` cut names of either syntax back into any pieces that they were joined from, and
  `CodesetFiles`, `NormalizedFiles` and `ModifierFiles` list the files that are tried, in order.

Three idioms keep the solver from unfolding what a proof only hands on; none of them changes what is said. A clause
`P(...) == true` is `P(...)`. A quantifier over one value, `forall x :: x == e ==> Q(x)`, is `Q(e)`. A datatype of
functions (`Family`, `Naming`, `Turn`-valued functions) stands for the functions that a predicate (`Real`, `Genuine`,
`Tells`) says they are.

## What the code does not promise

Four promises are false of the code as it stands; each has its exact condition and an input.

- `optstring` keeps its leading `+` or `-` in all calls but the first (`lib/getopt.c:285-300` moves the pointer of one
  call only), although the comments describe the sign as a mere prefix. `ScanSeen` says for which option strings and long
  options this cannot be noticed in any scan, and for no others; `SignIsSeen` gives vectors where it is.
- The normalized codeset is meant for codesets that are not normalized, but it is compared with everything that follows
  the codeset in the name, modifier included (`intl/explodename.c:106-114`; the modifier is cut off after that).
  `TakenForOther` says that a normalized codeset is taken for one that is not exactly if a modifier follows, `EuroUtf8`
  gives `de_DE.utf8@euro`, and `AskedTwice` what follows: the name with all parts is not looked for at all, and every
  file with the codeset is asked for by two masks.
- A locale name can be found in the list under a node that was made for another name. Then its own spelling may not be
  among the files tried: `FindDomain` has the condition, and `FindBoth` does the two lookups, with the names of
  `TakenByAnother`, in an empty list.
- The second lookup of a locale such as `de_DE.UTF-8` finds the node of its spelling, which does not lead to all files
  that the first lookup tried. `FindTwice` says exactly when the two lookups differ (the name has two forms, that is, it
  can be spelled out but its full form is not its spelling, and neither is listed yet) and names a file that only the
  first one reaches; `TwoFormsIf` says which names these are, and `GermanUtf8` gives one. So a known translation can be
  one that a new search would not find: `AnswersDiffer` is a run that shows it, for any list of languages that begins
  with such a name, and `AlwaysTheSameIf` the exact condition.

The comment on the order in which parts are stripped off (`intl/finddomain.c:74-83`) names the codeset before the
normalized codeset; by the masks the code goes through, a file with the codeset is tried before the one with its
normalized form (`StrippedInOrder`, `NormalizedFiles`). The model follows the code.

## Model

| member | source | states |
|---|---|---|
| PluralTables.TablesAgree | intl/plural.c:232-294 | Decoding the packed tables `yypact`, `yytable`, `yycheck` and `yydefact` as the parser does gives, for every state and symbol, the action of the automaton written out state by state. |
| PluralTables.GotosAgree | intl/plural.c:1107-1117 | `yypgoto` and `yydefgoto` decode to the state after a completed expression, for every state that can stand below one. |
| PluralTables.NoErrorProductions | intl/plural.c:1207-1280 | No state shifts the error token, so error recovery cannot resume. |
| PluralSyntax.RegroupYield | intl/plural.y:130-142 | Every derivation of the ambiguous grammar can be regrouped into one that obeys the declared precedences and associativity without changing its token string. |
| PluralAutomaton.RunStart | intl/plural.c:851-960 | Once the input is reduced to the start symbol, exactly the end of input is accepted. |
| PluralAutomaton.RunSound | intl/plural.c:755-1119 | If a run accepts, the tokens consumed and remaining have a derivation that conforms to the precedences and whose tree is the one returned. |
| PluralAutomaton.RunFollows | intl/plural.c:755-1119 | The automaton reads every conforming derivation in every context that it fits and leaves its tree on the stack, unless the stack limit stops it, which happens exactly if the derivation needs that height. |
| PluralAutomaton.RunDecidesDerivable | intl/plural.y:130-203 | Unless the stack limit stops it, the automaton accepts a token string if and only if the grammar derives it, and the tree is that of every conforming derivation. |
| PluralLexer.ScanNumber | intl/plural.c:1366-1379 | A run of digits is read as its decimal value modulo the width of `unsigned long`. |
| PluralLexer.YyLex | intl/plural.c:1343-1483 | The lexer, moving its pointer, returns the token, value and next position that the definition of lexemes gives for every character. |
| PluralText.LexWritten | intl/plural.c:1343-1483 | Tokens written with any blanks before and behind them, at least where two would run together, are read back, whatever follows a semicolon or newline; these two end the input. |
| PluralText.Together | intl/plural.c:1389-1455 | Two tokens written without a blank are read back as these two if and only if they are not two numbers, nor a sign that an equals sign would extend. |
| PluralText.Stray | intl/plural.c:1380-1470 | A character that begins no token, and an equals sign, `&` or vertical bar that stands alone, is an error token. |
| PluralParser.Relocate | intl/plural.c:805-825 | Both stacks are copied in full when they grow. |
| PluralParser.Stacks.PushState | intl/plural.c:755-849 | Pushing a state and a value; the stacks overflow exactly at YYMAXDEPTH and otherwise keep room for one more. |
| PluralParser.Stacks.ReduceBy | intl/plural.c:965-1119 | Popping a right-hand side, computing the action's value and going to the next state is the reduction of the automaton. |
| PluralParser.Stacks.Recover | intl/plural.c:1207-1280 | Error recovery pops every state and fails. |
| PluralParser.NextAction | intl/plural.c:851-960 | The action taken, with the lookahead read only if needed, is that of the automaton for the next token. |
| PluralParser.YyParse | intl/plural.c:674-1310 | On any input the parser returns 0, 1 or 2 as the automaton accepts, fails or overflows on the tokens of the input, and stores the automaton's tree. |
| PluralRoundTrip.MinimalIsSmallest | intl/plural.y:130-203 | No conforming derivation of an expression, from tokens that the lexer gives, has fewer tokens than the one with minimal parentheses. |
| PluralText.LexText | intl/plural.c:1343-1483 | Tokens that alternate as in an expression need no blanks: their texts joined, with a terminator or not, are read back as that token string. |
| PluralRoundTrip.RoundTrip | intl/plural.c:1003-1080 | Printing an expression with minimal parentheses and running the automaton on it gives the expression, or the overflow if and only if the expression needs that much stack. |
| PluralRoundTrip.RoundTripWritten | intl/plural.c:1003-1080 | The same for the text of the expression with any blanks and any terminator. |
| PluralRoundTrip.ParsePrinted | intl/plural.c:674-1310 | The parser itself, on the printed text with blanks anywhere and then the end, or a semicolon or newline with anything behind it: result 0 and the same tree, or result 2. |
| PluralEval.EvalIsExact | intl/eval-plural.h:27-108 | Where no step leaves the range of `unsigned long`, evaluation with wrap-around and short circuits gives the exact integer value. |
| PluralEval.RoundTripEval | intl/eval-plural.h:27-108 | A printed and reparsed expression evaluates to the same result for every n, divisions by zero included. |
| PluralOperators.ParseOperator | intl/eval-plural.h:27-108 | Each of the 13 binary operators, as it is spelled between `n` and a number, read by the parser and evaluated, gives the value that C gives, with wrap-around and division by zero. |
| PluralHeader.ExtractPluralExpression | intl/plural-exp.c:97-154 | The expression and the number of forms that a header entry declares, at the first place of each name; the Germanic default if one is missing or cannot be read. |
| PluralHeader.ReadHeader | intl/plural-exp.c:97-154 | A header that gives a number of forms and an expression, in any spacing and among anything else, declares these; an expression too deep for the parser leaves the default. |
| PluralEval.PluralLookup | intl/dcigettext.c:1027-1062 | The variant returned is the one the expression selects; out of range of the declared or of the stored variants it is the first. |
| CatalogHash.HashPortable | intl/hash-string.h:28-48 | Computed in words of any width from 32 bits, the hash agrees modulo 2^32 with the 32-bit computation, which is below 2^28. |
| CatalogHash.HashString | intl/hash-string.h:28-48 | The loop over the characters computes that value. |
| CatalogHash.HashNext | intl/hash-string.h:28-48 | One more character moves the value up by four bits and adds it, modulo 2^32, and the four highest bits are cleared and exclusive-ored into the bits from the fifth on. |
| CatalogProbe.NotAMultiple | intl/dcigettext.c:746-748 | No multiple of the step below the prime table size is a multiple of the size. |
| CatalogProbe.ProbesDiffer | intl/dcigettext.c:782-785 | The slots probed in the first `hash_size` steps are all different. |
| CatalogProbe.EverySlotVisited | intl/dcigettext.c:782-785 | Within `hash_size` probes every slot is visited. |
| CatalogTable.ProbedAt | intl/dcigettext.c:746-785 | Apart from turns around the table the k-th probe is the hash value plus k times one more than its remainder by the size minus 2. |
| CatalogTable.ProbingEnds | intl/dcigettext.c:749-785 | With a free slot probing meets one within `hash_size` steps. |
| CatalogTable.NotInserted | intl/dcigettext.c:749-755 | Meeting a free slot means that the string is none of the keys. |
| CatalogTable.Inserted | intl/loadmsgcat.c:1317-1343 | Filling the first free slot on the way of a new key keeps every earlier key findable and makes the new one so. |
| CatalogTable.Insert | intl/loadmsgcat.c:1317-1343 | The insertion loop ends, keeps the table right for the keys so far, adds the new one and uses up one free slot. |
| CatalogImage.ReadsNumber | intl/gettextP.h:53-67 | Loading a word on either host and swapping it if the file has the other order gives the number that the file stores. |
| CatalogImage.SwappedWord | intl/gettextP.h:53-67 | A word of a byte-swapped image, read in the opposite order, is the word of the image. |
| CatalogImage.SwappedString | intl/dcigettext.c:764-773 | Strings outside the swapped words are unchanged. |
| CatalogLookup.SearchTable | intl/dcigettext.c:742-785 | The probing loop ends and returns the key that is the string, or nothing if none is. |
| CatalogLookup.FindByHash | intl/dcigettext.c:742-785 | The same from the hash of the string on, in any word size. |
| CatalogLookup.FindByBisection | intl/dcigettext.c:786-811 | Bisection of the sorted table returns the string's index, or nothing if it is not in the table. |
| CatalogLookup.AnswersAgree | intl/dcigettext.c:742-811 | For distinct keys there is one right answer. |
| CatalogLookup.FindBothWays | intl/dcigettext.c:742-811 | For a sorted catalogue with a hash table over it both searches return the same index. |
| CatalogLookup.FindMsg | intl/dcigettext.c:727-829 | The index found answers the question, and the result is the translation at that index, static or system dependent. |
| CatalogSysdep.ExpandSize | intl/loadmsgcat.c:1118-1181 | The size computed for an expanded string is its length. |
| CatalogSysdep.Measure | intl/loadmsgcat.c:1129-1172 | The first pass's loop over the segments of a string judges it and computes the memory it takes. |
| CatalogSysdep.Recheck | intl/loadmsgcat.c:1208-1242 | The second pass's loop judges a string as the first did. |
| CatalogSysdep.Concatenate | intl/loadmsgcat.c:1279-1308 | The string written is the concatenation of its static and system dependent segments, and nothing before it changes. |
| CatalogPasses.FirstPass | intl/loadmsgcat.c:1118-1181 | The first pass fails exactly on an invalid segment reference, and otherwise counts the pairs kept and the memory they take. |
| CatalogPasses.RecheckPair | intl/loadmsgcat.c:1206-1243 | The second pass keeps a pair if and only if the first did. |
| CatalogPasses.FillString | intl/loadmsgcat.c:1246-1309 | A kept string is described in place or expanded into exactly the memory measured for it. |
| CatalogFill.SecondPass | intl/loadmsgcat.c:1202-1315 | The second pass describes as many pairs as the first counted, fills the memory exactly, and every descriptor leads to its expanded string. |
| CatalogLoad.SegmentValues | intl/loadmsgcat.c:1086-1108 | The segment values are fetched unless a name does not end in a NUL. |
| CatalogLoad.Augment | intl/loadmsgcat.c:1317-1343 | The copied hash table finds the static and all the new strings, and still has a free slot. |
| CatalogLoad.Expansion | intl/loadmsgcat.c:1183-1355 | The domain after expansion is sound, has exactly the kept pairs behind the static ones, and a table over all of them. |
| CatalogLoad.LoadSysdep | intl/loadmsgcat.c:1058-1360 | Loading a catalogue with system dependent strings fails exactly if a segment name or reference is invalid. |
| CatalogLoad.LoadDomain | intl/loadmsgcat.c:1006-1385 | Loading by magic number and revision: which files are refused, and what the domain holds otherwise. |
| CatalogWritten.HeaderFound | intl/gmo.h:73-105 | In a file that begins with the words of `struct mo_file_header` in their order, in either byte order, the loader finds the tables of originals and translations, the hash table and the system dependent tables where they are. |
| CatalogWritten.TextAt | intl/gmo.h:107-114 | In a table of `struct string_desc` it finds the length and the place of each text. |
| CatalogWritten.SegsMean | intl/gmo.h:116-140 | A system dependent string that is written as a struct of segments is kept if and only if all of them have values, and expands to its static texts with the values between them. |
| CatalogReadBack.LoadWritten | intl/loadmsgcat.c:1006-1385 | A file in which a catalogue is written is loaded as exactly that catalogue: its msgids with their translations and, behind them, the system dependent pairs whose segments all have values; it is refused exactly for a major revision above 1, or a minor revision without a hash table. |
| CatalogReadBack.FindWritten | intl/dcigettext.c:727-829 | A string looked up in such a file is found if and only if it is one of its msgids, with a translation that the catalogue has for it. |
| CatalogEncode.EncodeWritten | intl/gmo.h:73-140 | For every catalogue and byte order the encoded bytes are such a file. |
| CatalogEncode.FindEncoded | intl/dcigettext.c:727-829 | So encoding a catalogue, loading the bytes on a host of either byte order and looking a string up finds what the catalogue says. |
| CatalogLoad.OrderSwapped | intl/loadmsgcat.c:1006-1029 | A byte-swapped file is recognized as being in the opposite order. |
| CatalogSwapped.FindInSwapped | intl/gettextP.h:53-67 | Looking up any string in a file and in the file with its words byte-swapped gives the same index and translation. |
| Bindings.Binding.Assign | intl/bindtextdom.c:131-208 | New values are stored if they differ, a new codeset steps its counter, and `modified` says whether anything changed. |
| Bindings.State.Find | intl/bindtextdom.c:112-124 | The search that stops early finds the binding if there is one. |
| Bindings.State.Change | intl/bindtextdom.c:126-208 | Changing a binding changes its own attributes and no other's. |
| Bindings.State.Add | intl/bindtextdom.c:219-317 | A new binding gets the given values or the defaults, and its place in the sorted list. |
| Bindings.State.SetBindingValues | intl/bindtextdom.c:93-339 | The bindings after a call and the values returned, for every combination of arguments; the counter steps exactly if some binding changed. |
| TranslationSearch.FindSteady | intl/finddomain.c:86-149 | If no locale that is tried has its spelling asked for, unless that is its full form, a lookup always ends at the node of the full form, whatever was looked up before. |
| TranslationSearch.SearchAgain | intl/dcigettext.c:580-650 | Then a search that is repeated in a longer list ends the same. |
| TranslationSearch.UncachedAgain | intl/dcigettext.c:503-690 | The same of the whole search for a key, while its binding stays. |
| Translations.TranscmpOrders | intl/dcigettext.c:246-265 | The comparison of the search tree is a total order that tells all keys apart. |
| Translations.StillCoherent | intl/dcigettext.c:476-501 | With steady names, other lookups leave every entry that counts right. |
| Translations.Entered | intl/dcigettext.c:639-680 | With steady names, a new or updated entry is what a search would give from then on. |
| Translations.Flushed | intl/bindtextdom.c:334-336 | After a step of the counter no entry counts. |
| Translations.StepRight | intl/dcigettext.c:476-501 | With steady names, one call of any kind gives the answer of a system that searches every time, and the entries stay right. |
| Translations.SameOutputs | intl/dcigettext.c:429-706 | So does any sequence of binding, default domain and lookup calls. |
| TranslationState.Gettext.FindMessage | intl/dcigettext.c:612-636 | The message of a node, or else of the first of its successors up to the NULL that has it, passing over those that are decided to be no file. |
| TranslationState.Gettext.SearchLanguages | intl/dcigettext.c:574-690 | The loop over the list of languages tries the locales of the list in order, up to the first hit, `C` or `POSIX`, without those that name a directory in a secure process; the list of loaded domains afterwards. |
| TranslationState.Gettext.FindTranslation | intl/dcigettext.c:503-690 | The search with the binding, directory and file name of a key. |
| TranslationState.Gettext.Dcigettext | intl/dcigettext.c:429-706 | The answer, the table and the list of loaded domains afterwards, for a call with or without a known translation. |
| TranslationState.Gettext.Bind | intl/bindtextdom.c:93-339 | Bindings, counter and returned values change as specified, and nothing else does. |
| TranslationState.Gettext.TextDomain | intl/textdomain.c:79-136 | The default domain and the counter change as specified, and nothing else does. |
| TranslationState.Run | intl/dcigettext.c:429-706 | From the start, any sequence of calls of the methods gives the outputs of the steps, and with steady names those of a system without a table of known translations. |
| TranslationPlaces.Reached | intl/dcigettext.c:503-690 | From the start: a domain bound to an absolute directory, to a relative one, or not bound, then selected and asked for a message, gives the text in the file of that directory (in the working directory, or the default one), locale, category and domain. |
| TranslationPlaces.NotReached | intl/dcigettext.c:503-690 | With no message in any file of that directory, or with a relative one and no working directory, the caller gets its own string; for a plural message the first one exactly for the number 1. |
| TranslationPlaces.Ask | intl/dcigettext.c:429-706 | The same two of a run of the methods on the state that is updated in place. |
| TranslationPlaces.Selected | intl/textdomain.c:79-136 | The default domain is `messages` at the start, then the one that was selected, and `messages` again after the empty name. |
| TranslationLanguages.LanguagesOf | intl/dcigettext.c:574-611 | The locales tried for a text of names with colons between them are the names in order, up to `C` or `POSIX`, without those with a slash in a secure process. |
| TranslationLanguages.ReachedInList | intl/dcigettext.c:574-690 | From the start, with a list of plain names: a message that only the file of one of them has is what the caller gets, wherever it stands in the list, and one in the file of the first is preferred to all others. |
| TranslationPlaces.AskedBack | intl/bindtextdom.c:93-339 | Asked afterwards, a domain tells the directory and codeset that it was bound to, or the default directory and no codeset. |
| TranslationNames.PlainSteady | intl/finddomain.c:86-149 | Plain locale names are steady, whatever the lists of languages. |
| TranslationNames.OneLanguageSteady | intl/finddomain.c:86-149 | With one language for each category, and no slashes in names, it is enough that no name has two forms: names that cannot be spelled out do no harm. |
| TranslationNames.AnswersDiffer | intl/dcigettext.c:476-501 | If the first language of a category has two forms, there are contents of the files for which the same call twice gives a known translation that a search would not find again. |
| TranslationNames.FirstLanguageDiffers | intl/dcigettext.c:429-706 | So the answers are not always those of a system that searches every time, whatever languages follow. |
| TranslationNames.AlwaysTheSameIf | intl/dcigettext.c:429-706 | With one language for each category, and no slashes in the names of categories, languages and domains: for all contents of the files and all sequences of calls the answers are the same, if and only if no name of a language has two forms. |
| Md5Block.OpIsOperation | lib/md5.c:340-410 | A step of the rounds, with its own order of additions and its own rotation, is the operation of section 3.4 of RFC 1321. |
| Md5Block.RowOf | lib/md5.c:340-445 | Four steps with rotating registers are a row of the rounds. |
| Md5Context.AllRounds | lib/md5.c:365-445 | The four rounds over a block, register by register. |
| Md5Context.OneBlock | lib/md5.c:303-452 | On a host of either byte order a block is compressed as section 3.4 of RFC 1321 says. |
| Md5Sines.TableOfSines | lib/md5.c:356-435 | For any two functions that add up like sine and cosine, lie on the unit circle and are given by their series between 0 and 1, the 64 constants in order are the integer parts of 2^32 times the absolute value of the sine of 1 to 64. |
| Md5Vectors.EmptyDigest | lib/md5.c:71-130 | The digest of the empty message is d41d8cd98f00b204e9800998ecf8427e (appendix A.5 of RFC 1321). |
| Md5Vectors.AbcDigest | lib/md5.c:71-130 | The digest of `abc` is 900150983cd24fb0d6963f7d28e17f72 (appendix A.5 of RFC 1321). |
| Md5Context.HostIndependent | lib/md5.c:52-57 | Loading and storing words gives the same bytes on hosts of either order. |
| Md5Context.BumpCounts | lib/md5.c:317-320 | The two counter words count the bytes modulo 2^64. |
| Md5Context.LengthBytesAre | lib/md5.c:121-124 | The stored length is the bit length modulo 2^64. |
| Md5Context.Context.ProcessBlock | lib/md5.c:303-452 | Any number of blocks is folded into the registers and counted. |
| Md5Context.Context.ProcessBytes | lib/md5.c:219-287 | A context that has taken in a message has taken in the message with the input behind it, at most one block of it in the buffer; for input of any alignment and every state of the buffer. |
| Md5Context.Context.TopUp | lib/md5.c:221-243 | The part of the input that fills up a started block. |
| Md5Context.Context.WholeBlocks | lib/md5.c:245-270 | The blocks taken straight from the input or, if it is not aligned, through the buffer. |
| Md5Context.Context.Pad | lib/md5.c:107-124 | The buffer then holds the padded end of the message of sections 3.1 and 3.2 of RFC 1321. |
| Md5Context.Context.Finish | lib/md5.c:107-130 | The result is the MD5 digest of the message taken in. |
| Md5Context.DigestPieces | lib/md5.c:219-287 | Any sequence of calls gives the digest of the concatenation. |
| Md5Context.DigestBuffer | lib/md5.c:203-214 | One buffer gives its digest. |
| Md5Stream.ReadBlock | lib/md5.c:152-179 | Whatever the pattern of short reads, a block is the next bytes of the stream. |
| Md5Stream.DigestStream | lib/md5.c:136-196 | The digest of what the stream delivers; it fails only if the stream does. |
| GetoptExchange.Exchange | lib/getopt.c:190-267 | The two adjacent blocks change places, in place, for all lengths. |
| GetoptExchange.RotatedBlocks | lib/getopt.c:190-267 | That is the block rotation: order within the blocks and everything outside is kept. |
| GetoptLayout.ExchangeLayout | lib/getopt.c:190-267 | After an exchange the non-options kept so far end where the scan stands. |
| GetoptLayout.FinishedAtEnd | lib/getopt.c:474-484 | At the end the vector is a stable partition and `optind` the first non-option. |
| GetoptSpec.MeaningIsUnique | lib/getopt.c:519-606 | A long option name has one meaning: an exact match, the only abbreviation up to equal effects, ambiguous or unknown. |
| Getopt.FindLong | lib/getopt.c:519-606 | The loop over the long options computes that meaning. |
| Getopt.Data.ReadShort | lib/getopt.c:792-1153 | A short option with its value, `optarg`, `optopt` and the place after it, in every case of missing, optional and attached arguments. |
| Getopt.Data.ReadLong | lib/getopt.c:519-728 | A long option with its value, argument, index, flag and the place after it, errors included. |
| Getopt.Data.Classify | lib/getopt.c:455-495 | What becomes of the next element: the end of the scan, a non-option in order, or an option. |
| Getopt.Data.StartElement | lib/getopt.c:425-502 | Looking for the next option element permutes the vector, but changes nothing of what is still to be returned. |
| Getopt.Data.GetoptInternalR | lib/getopt.c:392-1153 | One call returns the next event of the plain reading, or ends the scan with the vector partitioned. |
| Getopt.ScanAll | lib/getopt.c:392-1153 | A whole run: the options and arguments returned are those of a plain reading of the original vector from left to right, the vector is the stable partition with options, their arguments and `--` first, and `optind` is the first non-option. |
| GetoptRender.KindDeclared | lib/getopt.c:345-349 | An option string put together from declarations means them: no colon for no argument, one for a required, two for an optional one. |
| GetoptRender.ReadLine | lib/getopt.c:332-390 | Whatever is written, clusters of flags, arguments attached or in the next element, optional arguments with and without text, long options with a value joined, next or none, options that cannot be used, operands between them and `--`, a missing argument, or an operand that ends the options: the events of the reading are exactly these options, with value, argument, `optopt`, index and the store through a flag, and what is left is exactly the operands. |
| GetoptRender.ScanRendered | lib/getopt.c:332-390 | A caller whose vector is so written is returned the values and arguments of these events and finds exactly the operands from `optind` on. |
| GetoptSpec.SelectMultiset | lib/getopt.c:190-267 | The partition is a permutation. |
| GetoptSign.SignSeen | lib/getopt.c:285-300 | For which option strings a single short option is read the same with and without the leading sign. |
| GetoptSign.ScanSeen | lib/getopt.c:285-300 | Every vector is scanned as with the stripped option string throughout if and only if the sign is declared the same way behind it and no missing argument, of a short or of a long option, is to be reported as `:`. |
| GetoptSign.PlainReading | lib/getopt.c:285-300 | Under that condition events and permutation are those of the stripped option string, from any point of a scan on. |
| GetoptSign.SignIsSeen | lib/getopt.c:285-300 | A vector for which it makes a difference. |
| PrintfSize.XsumSaturates | intl/xsize.h:57-61 | The sum is the true sum, or SIZE_MAX if that is larger. |
| PrintfSize.XtimesSaturates | intl/xsize.h:99-100 | The product likewise. |
| PrintfParse.ReadNumber | intl/printf-parse.c:143-146 | A number of any length is read as its decimal value, or SIZE_MAX if that is larger. |
| PrintfParse.ReadPosition | intl/printf-parse.c:134-156 | A positional argument number, refused if it is 0 or saturated. |
| PrintfParse.Arguments.Register | intl/printf-parse.c:83-113 | Registering a type grows the array, fills what was skipped and refuses a second type for an argument. |
| PrintfParse.ReadWidth | intl/printf-parse.c:195-247 | A width, given by digits, `*` or `*m$`. |
| PrintfParse.ReadPrecision | intl/printf-parse.c:249-306 | A precision likewise, with its dot. |
| PrintfSpec.SizeMeans | intl/printf-parse.c:308-398 | What size letters mean, in any order and number: `L` or two letters of the long kind, else one such letter, else two letters `h`, else one. |
| PrintfParse.ReadConversion | intl/printf-parse.c:308-498 | The type and argument of a conversion, by its character and size letters. |
| VasnprintfReread.IntegerTypes | intl/printf-parse.c:384-475 | The types of the integer conversions and of `%n` for the size letters, as C99 lists them. |
| VasnprintfReread.RealTypes | intl/printf-parse.c:417-425 | Those of the floating point conversions. |
| VasnprintfReread.TextTypes | intl/printf-parse.c:426-453 | Those of characters and strings. |
| VasnprintfReread.NoOtherTypes | intl/printf-parse.c:382-484 | Exactly these conversion characters are known. |
| PrintfDirective.ReadDirective | intl/printf-parse.c:115-500 | A directive's fields and arguments, in the order they are registered. |
| PrintfScan.ScanTiles | intl/printf-parse.c:115-524 | The directives found tile the format: in order, disjoint, each spelled as allowed, and no percent sign between them. |
| PrintfUnique.PiecesUnique | intl/printf-parse.c:115-500 | A directive can be read in one way only. |
| PrintfUnique.ScanExactly | intl/printf-parse.c:115-524 | A list of directives is what the scan finds if and only if it tiles the format. |
| PrintfFormat.Directives.Push | intl/printf-parse.c:501-517 | A directive is added to the growing array. |
| PrintfFormat.Parse | intl/printf-parse.c:62-532 | On success the records and argument types are those of the format, with the sentinel at its end and the longest width and precision; it fails only if the format or its types are not right, or too large. |
| PrintfTypes.RegisterMeans | intl/printf-parse.c:83-113 | Registration succeeds if and only if all uses of an argument agree, and then each argument has the type of its uses. |
| PrintfTypes.ArgumentsInRange | intl/printf-parse.c:83-113 | Every argument index of every directive is in range and holds the type that the directive uses. |
| PrintfOrder.TakenInOrder | intl/printf-parse.c:195-498 | Without numbers the arguments are taken one after the other, an int for each star in front of the value, and their types are those of the directives in order. |
| PrintfOrder.TakenByNumber | intl/printf-parse.c:134-156 | With numbers they are the ones named, counted from 1, wherever the directive stands. |
| VasnprintfBuffer.Output.Ensure | intl/vasnprintf.c:184-205 | The buffer holds what is needed, at least doubled if it had to grow, with its contents kept. |
| VasnprintfBuffer.Output.Append | intl/vasnprintf.c:209-217 | Literal text is appended. |
| VasnprintfBuffer.Output.Attempt | intl/vasnprintf.c:587-844 | One turn of the loop around snprintf: done, once more without `%n`, enlarged, or out of memory. |
| VasnprintfBuffer.Output.Retry | intl/vasnprintf.c:580-844 | With a conforming snprintf a directive is appended after at most two enlargements, and exactly as many as its length and the room at the start call for. |
| VasnprintfDirective.RebuiltFits | intl/vasnprintf.c:147-148 | The rebuilt directive with `%n` and its NUL fits in the buffer, and fills it if and only if it has all six flags, the letters `ll` and the longest width and precision. |
| VasnprintfDirective.Rebuild | intl/vasnprintf.c:501-563 | The directive rebuilt is the percent sign, flags, width, precision, size letters and conversion, followed by `%n` and a NUL. |
| VasnprintfReread.RereadAlike | intl/vasnprintf.c:501-563 | Read again by itself, the directive handed to snprintf has the flags, width and precision of the one in the format, its stars in order, and a conversion of the same kind whose size letters give the type as which the argument is passed. |
| Vasnprintf.ProgressTurn | intl/vasnprintf.c:207-847 | A turn of the main loop takes one directive from what is still to be output. |
| Vasnprintf.Turn | intl/vasnprintf.c:207-847 | The body of the loop appends the literal text and the rendered directive, or stores the count for `%n`. |
| Vasnprintf.Loop | intl/vasnprintf.c:207-847 | The main loop outputs the literal pieces and rendered directives in order. |
| VasnprintfMain.ParsedProper | intl/vasnprintf.c:115-148 | Every record of a parsed format meets what the main loop and the directive buffer rely on. |
| VasnprintfMain.Vasnprintf | intl/vasnprintf.c:109-879 | The result is the meaning of the format with a NUL, in the caller's buffer if and only if it fits there and otherwise in memory of its size; it fails only if there is no meaning or too much of it. |
| VasnprintfMeans.MeaningWritten | intl/vasnprintf.c:207-847 | For a format put together from text and directives that take their arguments in turn: the output is the text as it stands, `%` for `%%`, nothing for `%n`, and for each other directive what is made of it and of the next arguments. |
| VasnprintfMeans.C99Readable | intl/printf-parse.c:115-500 | Every directive of C99 without numbers can stand in such a format: any flags, a width and a precision by digits or a star, a size and a conversion from the lists of the standard. |
| VasnprintfMeans.PrintWritten | intl/vasnprintf.c:109-879 | vasnprintf gives exactly that, in the caller's buffer if and only if it fits there with its NUL. |
| VasnprintfMain.LibintlVsnprintf | intl/printf.c:176-200 | With a positional format the caller's buffer holds the output, or its first length-1 characters and the result is -1; the abort is never reached. |
| LocaleMask.PopCounts | intl/l10nflist.c:154-165 | `pop` counts the bits of a mask. |
| LocaleMask.InheritedIs | intl/l10nflist.c:333-345 | The masks that the loop visits are exactly the admissible ones, without the mask itself if there is one directory, in decreasing order. |
| LocaleMask.InheritedFit | intl/l10nflist.c:302-308 | There are never more of them than `1 << pop (mask)`. |
| LocaleName.NothingLost | intl/explodename.c:70-184 | Rejoining the parts of any name with their separators gives the name. |
| LocaleShapes.SplitXpg | intl/explodename.c:70-184 | A name joined from a language and any of territory, codeset and modifier in XPG syntax is cut into these. |
| LocaleShapes.SplitCen | intl/explodename.c:70-184 | A name joined from a language and any of territory, audience, special, sponsor and revision in CEN syntax is cut into these. |
| LocaleExplode.PointersLead | intl/explodename.c:40-185 | In the name with NULs for separators the pointers lead to the parts. |
| LocaleSplit.NormalizeCodeset | intl/l10nflist.c:366-414 | The normalized codeset fills the memory allocated for it. |
| LocaleSplit.ExplodeName | intl/explodename.c:41-185 | Cutting up a name in place: the name afterwards, the strings at the pointers, and the mask. |
| LocaleFile.ArgzCount | intl/l10nflist.c:87-99 | The number of strings in a list. |
| LocaleFile.ArgzNext | intl/l10nflist.c:133-148 | Going on to the next string. |
| LocaleFile.ArgzStringify | intl/l10nflist.c:111-122 | Every NUL but the last becomes the separator: the strings are joined, in place. |
| LocaleFile.RoomIsExact | intl/l10nflist.c:190-212 | The size allocated for a file name is exactly that of the name and its NUL. |
| LocaleFile.BuildFileName | intl/l10nflist.c:190-267 | The memory then holds the directories, the parts of the mask with their separators and the file name. |
| LocaleRequest.SuccessorsFit | intl/l10nflist.c:297-308 | The successors and the NULL behind them fit in the array allocated, for any number of directories. |
| LocaleRequest.SuccessorAt | intl/l10nflist.c:323-358 | The successors go mask by mask in decreasing order, and for each mask directory by directory. |
| LocaleShapes.StrippedInOrder | intl/finddomain.c:73-83 | Of two sets of parts the one comes first that has, of the parts in which they differ, the one that is stripped off last. |
| LocaleShapes.CodesetFiles | intl/l10nflist.c:333-358 | For a name with territory and normalized codeset the files tried are, in order, with both, with the territory, with the codeset and with neither. |
| LocaleShapes.NormalizedFiles | intl/l10nflist.c:316-358 | For a codeset that is not normalized: seven names in order, of which the first, with both codesets, is not looked for. |
| LocaleShapes.ModifierFiles | intl/l10nflist.c:333-358 | For a name with territory and modifier: seven names in order, the modifier with a plus sign first and with its own sign behind that. |
| LocaleRequest.Inheriting | intl/l10nflist.c:333-358 | What a successor inherits from is a successor of the first request too. |
| LocaleList.L10nList.Find | intl/l10nflist.c:269-285 | The search that stops early finds the name or its place. |
| LocaleList.NewNode | intl/l10nflist.c:294-319 | The new node's name, size and `decided` flag. |
| LocaleList.L10nList.Fill | intl/l10nflist.c:323-358 | A new node gets exactly the nodes that it inherits from, found or made by recursion, and a NULL behind them. |
| LocaleListing.Entering | intl/l10nflist.c:269-358 | Entering a request, and by recursion what it inherits from, changes nothing that is listed; every new name is for one of these requests and has its entry; what is listed leads only to what is listed. |
| LocaleList.L10nList.Make | intl/l10nflist.c:167-361 | The list stays strictly descending without duplicates and keeps its nodes; the result has the name asked for; a new node was made for the request, and nothing else is added but nodes for what the request inherits from; as a table, the list is then the one with the request entered; the recursion ends. |
| LocaleList.ValidList | intl/l10nflist.c:269-319 | In every list so made the nodes descend strictly by name and carry the name of what they were made for. |
| LocaleList.ValidNode | intl/l10nflist.c:321-358 | In every list so made each node's pointers lead to nodes of the list with the names it inherits from, in order, up to a NULL. |
| LocaleList.ListedNode | intl/l10nflist.c:321-358 | The entry of a node in the table says whether it is decided and which names its pointers lead to, up to the NULL. |
| LocaleSpelling.SpelledOut | intl/l10nflist.c:215-267 | A name that can be spelled out is the file name part for the mask of its spelling. |
| LocaleSpelling.NotSpelled | intl/l10nflist.c:215-267 | For a name with an empty part in XPG syntax, or a revision without a sponsor, no mask that is tried gives the name. |
| LocaleDomain.SpellingAsked | intl/l10nflist.c:333-358 | With one directory the spelling is the file of the node or of one that it inherits from if and only if the name can be spelled out. |
| LocaleDomain.FullIsSpelling | intl/l10nflist.c:215-267 | The full form of a name is its spelling if and only if it can be spelled out and has, in XPG syntax, neither a codeset that is not normalized nor a modifier. |
| LocaleShapes.PlainIf | intl/explodename.c:70-184 | A name joined in XPG syntax is plain if and only if it has no modifier and its codeset, if it has one, is normalized and neither it nor the territory is empty. |
| LocaleDomain.FindDomain | intl/finddomain.c:86-149 | Which node a lookup returns and the list afterwards; the spelling of the name is among the files tried, and in the list afterwards, if and only if it was in the list already, or the name can be spelled out and its full form was not in the list. |
| LocaleNormalized.NormalForm | intl/l10nflist.c:366-414 | A normal form is its own normal form. |
| LocaleCodeset.SignsDropped | intl/l10nflist.c:366-414 | A character that is neither a letter nor a digit makes no difference to the normal form. |
| LocaleCodeset.CaseFolded | intl/l10nflist.c:366-414 | Nor does the case of a letter. |
| LocaleCodeset.Stays | intl/l10nflist.c:366-414 | Small letters and digits stay as they are; digits alone get `iso` in front. |
| LocaleNormalized.NormalizedIf | intl/explodename.c:104-114 | A name has a normalized codeset if and only if its codeset is not empty, and not normalized or followed by a modifier; it is the normal form of the codeset. |
| LocaleNormalized.TakenForOther | intl/explodename.c:104-114 | A codeset that is normalized already is taken for one that is not if and only if a modifier follows. |
| LocaleNormalized.AskedTwice | intl/l10nflist.c:316-345 | Then the node for all parts is decided to be no file, and each file with the codeset is the name for two different masks. |
| LocaleTwice.TriedOnce | intl/finddomain.c:86-115 | For a name with two forms: one of the requests made by its first lookup is for a certain file and not decided, and no request with the spelling of the name leads to that file. |
| LocaleTwice.FileBeforeLanguage | intl/l10nflist.c:333-358 | That file comes before the one for the language alone in the order in which files are tried. |
| LocaleLookups.FindTwice | intl/finddomain.c:86-149 | Looking up a name twice returns different nodes if and only if the name has two forms and neither was in the list; then only the first node reaches that file. |
| LocaleLookups.FindBoth | intl/finddomain.c:86-149 | After a lookup of the longer name in an empty list, the node found for the shorter one does not reach the file with its spelling, although the name can be spelled out. |
| LocaleClash.SplitBack | intl/explodename.c:70-184 | Splitting a name joined from clean pieces gives the pieces back, with the normal form of the codeset where there is one. |
| LocaleClash.TwoFormsIf | intl/explodename.c:70-184 | Of the names joined from clean pieces those have two forms whose codeset is not normalized or which have a modifier that is not empty, and no others. |
| LocaleClash.GermanUtf8 | intl/explodename.c:70-184 | `de_DE.UTF-8` has two forms. |
| LocaleClash.EuroUtf8 | intl/explodename.c:104-114 | `de_DE.utf8@euro` has the normalized codeset `utf8` beside the codeset `utf8`. |
| LocaleClash.TakenByAnother | intl/l10nflist.c:269-289 | Two names that share a file name in the list: the node made for the longer one has the full form of the shorter one for a name, and does not lead to the shorter one as it is spelled. |
| LocaleClash.NotAskedByOther | intl/l10nflist.c:333-358 | Nor does any other node made for the longer one. |

## Left out

- Sockets, name resolution, passwords, `src/wol.c` and the other programs: input and output.
- `src/magic.c`, `src/macfile.c`, `src/proxy.c`: fixed layouts and thin uses of `sscanf`.
- Opening and mapping catalogue files, locks, `errno`, logging, locale aliases and the loading that `_nl_find_domain` triggers: a catalogue is a sequence of bytes, and what a file says about a message is a parameter of the search (a file that cannot be loaded says nothing).
- Character set conversion and its memory: the text of a message is a function of the file, the codeset of the binding and the message.
- Failing allocation, apart from sizes that no memory holds: memory is otherwise taken to be there, so what depends on a failed `malloc` or `strdup` is not covered.
- Freeing of trees by the plural parser, and semantic values of tokens that carry none: such a value is `VNone`, where the C code leaves an older one in `yylval`.
- `-W` in option strings, `long_only` and the text of error messages in getopt.
- GetoptRender.ReadLine: options whose character is the sign of the option string are left to GetoptSign.ScanSeen.
- Getopt.ScanAll: asks that no long option has the code -1, because a caller takes that value for the end of the scan.
- The wide-character variants of vasnprintf and those without `snprintf`; how numbers are rendered is a parameter, and a rendering is no longer than the format allows memory for.
- VasnprintfMain.Vasnprintf: an encoding error of `snprintf` makes the code enlarge the buffer until sizes saturate; the model says that no result is returned, not how long that takes. Counts beyond `int` are not modelled.
- VasnprintfMain.LibintlVsnprintf: on failure the C code would copy from a null pointer; the model says nothing about the buffer then.
- VasnprintfMeans.MeaningWritten: for formats whose arguments are taken in turn, and without the counts that `%n` stores; VasnprintfMain.Vasnprintf has both.
- PrintfFormat.Parse: formats shorter than 2^56 characters, on a system with `long long`, wide characters and a 64-bit `long`.
- The table of values for system dependent segments: a partial map that is a parameter.
- Facts about catalogues that the code relies on and does not check are preconditions: a prime table size, free slots, sorted ids, tables within the file, strings that end in a NUL.
- CatalogReadBack.LoadWritten: for catalogues without references out of range, which CatalogLoad.LoadSysdep rejects.
- CatalogSwapped.FindInSwapped: for catalogues without system dependent strings; the words of those are read by the same reader.
- Md5Context.BumpCounts: the two halves of the counter are combined by addition, where the C code uses a bitwise or of disjoint bits.
- Character classes are those of the C locale for ASCII.
- TranslationPlaces.Reached: for a category whose value is one plain locale name, whose own file has the message (TranslationLanguages.ReachedInList has lists of them); the files tried behind that one are those of LocaleShapes.CodesetFiles and the lemmas beside it.
- TranslationState.Run: the counter does not wrap; the environment, working directory and files stay as they are.
- Translations.SameOutputs: for lists of several languages the condition is sufficient; it is exact for one language per category (TranslationNames.AlwaysTheSameIf). A name with two forms behind another language can be harmless, because the files that it loses may be those of the language before it.
- LocaleList.L10nList.Make: the `next` pointers of the list are a sequence; `decided` is the value a node starts with.
- The text that `category_to_name` and the environment give for a category is a parameter.
