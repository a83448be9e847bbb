# drv-loader: the light lazy loader and its helpers, modelled in Dafny

drv-loader resolves the Windows native API lazily. A call site names an
import path such as `"ntdll.dll!NtLoadDriver"`. The process-wide
`lazymodulecollection` splits that path into a module name and a symbol
name. It finds the module in its registry or loads it, then looks the
symbol up. The helpers header adds base-16 formatting and parsing of
integers, and small ownership wrappers that close a handle or delete a
pointer.

The project models that core in six modules:

- `ImportPath` (`import_path.dfy`) models `is_import_str` and `split_import_string`.
  The split follows the semantics of `std::sregex_token_iterator` with submatch -1.
- `Loader` (`loader.dfy`) stands in for the OS loader (`LoadLibraryA`/`dlopen`,
  `GetProcAddress`/`dlsym`, `FreeLibrary`/`dlclose`).
  - Each call is appended to a log, and its answer is arbitrary.
  - Contracts read the answer back from the log with `NextAnswer` and `LastAnswer`.
- `LazyLoaderLight` (`lazy_loader.dfy`) models `lazyimport`, `basic_lazyimportcollection`,
  `basic_lazymodule` and `basic_lazymodulecollection`.
  - The registry (`ModuleCollection`) and the local modules (`LazyModule`) are classes.
  - The registry's vector holds module VALUES (`ModuleValue`), because every
    `elem = *it` in the source copies one.
  - Each operation is specified by a function of the old state and the
    loader's answers (`ImportFindOrLoad`, `ModuleFindOrLoad`, `Register`,
    `UnloadByName`). The lemmas prove their properties.
- `HexString` (`hex_string.dfy`) models `to_hex_string` and `from_hex_string`.
  They follow `std::to_chars` and `std::from_chars` (sections 20.19.2 and 20.19.3
  of ISO C++20) for an integral type given by its size and signedness.
- `Options` (`options.dfy`) holds the `Option` datatype the others use for
  results that may be absent.
- `Scoped` (`scoped.dfy`) models `scoped_handle` and the three `scoped_ptr` variants.
  - Each wrapper logs the handles it closed or the addresses it deleted.
  - A ghost history of every value it was given supports an exact ownership invariant.

Entries are looked up by `std::hash` of the name, never by the name itself.
The hash is a parameter `hashFn` that the model never assumes to be injective.
`HashCollisionSharesModule` shows what a collision does. The singleton
`instance()` is one explicitly constructed `ModuleCollection`.

Facts about the code that its comments or a first reading suggest otherwise:

- **Symbols are never cached across calls.** `register_import` resolves the
  symbol in the imports of a local COPY of the module, and then drops that copy.
  The registry's modules therefore always have empty import collections
  (`RegistryInvariant`). Every `register_import` with a module name and a
  symbol name calls `get_symbol` once (`RegisterAlwaysResolves`, `RegisterTwice`). Memoisation
  holds only for one `basic_lazyimportcollection` on its own (`ImportFindOrLoadTwice`).
- **A failed module load does not stop `register_import`.** The local module
  keeps handle 0, and `get_symbol(0, name)` is still called
  (`FailedLoadStillResolves`).
- **`split_import_string` drops everything from a second `!` on** (`SplitDropsRemainder`).
  Its check `size() >= 1 || size() <= 2` holds for every token count
  (`TokenCountAssertionIsVacuous`).
- **The empty path does not throw.** The token iterator's constructor first
  searches for "!" and finds no match. Submatch -1 then makes it a suffix
  iterator over the whole range, by paragraph 4 of [re.tokiter.cnstr] in
  ISO C++20. So even `""` yields one empty token and `at(0)` succeeds.
  `Split` is therefore total, and `Split("") == ("", "")`.
  `register_import` then returns the invalid import without calling the loader.

## Model

| member | source | states |
|---|---|---|
| ImportPath.IsAlnum | drv-loader/include/lazy_loader_light.hpp:16 | `isalnum` in the "C" locale: only ASCII characters, and none of the punctuation marks '!', '_', '.' and '/' that the recogniser admits besides |
| ImportPath.AllImportChars | drv-loader/include/lazy_loader_light.hpp:16 | true exactly when every character is a letter, a digit, '!', '_', '.' or '/' |
| ImportPath.IsImportStr | drv-loader/include/lazy_loader_light.hpp:15-17 | true exactly when the string is non-empty and every character is an import character |
| ImportPath.FieldEnd | drv-loader/include/lazy_loader_light.hpp:22-23 | the position of the first '!', or the length: no '!' before it, a '!' at it |
| ImportPath.Tokens | drv-loader/include/lazy_loader_light.hpp:22-26 | at least one token; the first is the text before the first '!'; no token contains '!' |
| ImportPath.Split | drv-loader/include/lazy_loader_light.hpp:19-37 | the text before the first '!', and the text between the first and the second '!' (or the end), "" when there is no '!'; neither holds a '!' |
| ImportPath.SplitWithoutSeparator | drv-loader/include/lazy_loader_light.hpp:30-36 | a path without '!' gives the whole path as module and "" as symbol |
| ImportPath.SplitJoin | drv-loader/include/lazy_loader_light.hpp:19-37 | splitting `a + "!" + b` gives back `(a, b)` for any '!'-free `a` and `b` |
| ImportPath.SplitDropsRemainder | drv-loader/include/lazy_loader_light.hpp:30-36 | `a!b!c` gives `(a, b)`: the text from the second '!' on is dropped |
| ImportPath.ImportStrComponents | drv-loader/include/lazy_loader_light.hpp:15-37 | both components of an import string consist of import characters |
| ImportPath.SplitExamples | drv-loader/include/lazy_loader_light.hpp:19-37 | "a", "a!", "a!b", "a!b!c" and "" split as documented above |
| ImportPath.TokenCountAssertionIsVacuous | drv-loader/include/lazy_loader_light.hpp:28 | the token-count assertion holds for every input; "a!b!c" has three tokens |
| Loader.Loader.constructor | drv-loader/include/lazy_loader_light.hpp:40-66 | the loader starts with an empty call log |
| Loader.Loader.LoadModule | drv-loader/include/lazy_loader_light.hpp:41-43 | one `Load` call with its answer is appended to the log |
| Loader.Loader.GetSymbol | drv-loader/include/lazy_loader_light.hpp:45-47 | one `Resolve` call with handle, name and answer is appended to the log |
| Loader.Loader.FreeModule | drv-loader/include/lazy_loader_light.hpp:49-51 | one `Free` call with handle and status is appended to the log |
| LazyLoaderLight.LazyImport.IsValid | drv-loader/include/lazy_loader_light.hpp:100-102 | `operator bool`: true exactly when the address is not 0 |
| LazyLoaderLight.DefaultImport | drv-loader/include/lazy_loader_light.hpp:116-118 | a default `lazyimport` has an empty name and address 0, so it is invalid |
| LazyLoaderLight.FindFirst | drv-loader/include/lazy_loader_light.hpp:135-138 | the first index whose hash matches; None exactly when no element matches |
| LazyLoaderLight.ImportFindOrLoad | drv-loader/include/lazy_loader_light.hpp:134-157 | a hit (the first entry with the name's hash) makes no call, keeps the collection and copies that entry into `elem`; a miss makes one `get_symbol` call; with answer 0 the collection and `elem` stay as they were; any other answer appends the new import at the end and copies it into `elem` |
| LazyLoaderLight.ImportCollection.constructor | drv-loader/include/lazy_loader_light.hpp:124 | a new symbol cache is empty |
| LazyLoaderLight.ImportCollection.FindOrLoad | drv-loader/include/lazy_loader_light.hpp:134-157 | new cache, new `elem` and loader calls are those of `ImportFindOrLoad` for the loader's answer |
| LazyLoaderLight.ImportFindOrLoadPreserves | drv-loader/include/lazy_loader_light.hpp:134-157 | the cache keeps distinct hashes and only resolved entries; it grows by at most one entry at its end; at most one loader call |
| LazyLoaderLight.ImportFindOrLoadTwice | drv-loader/include/lazy_loader_light.hpp:134-157 | after a hit or a successful resolution, asking again hits, returns the same valid import and calls nothing; after a failure it calls `get_symbol` again |
| LazyLoaderLight.LazyModule.Default | drv-loader/include/lazy_loader_light.hpp:211-214 | a default module has an empty name, handle 0 and an empty import collection |
| LazyLoaderLight.LazyModule.Assign | drv-loader/include/lazy_loader_light.hpp:181 | after the copy assignment the module's value equals the value assigned |
| LazyLoaderLight.LazyModule.Add | drv-loader/include/lazy_loader_light.hpp:207-209 | `add` is the module's own symbol cache find-or-load, on the module's handle |
| LazyLoaderLight.LazyModule.Unload | drv-loader/include/lazy_loader_light.hpp:187-189 | exactly one `free_module` call, on the module's handle |
| LazyLoaderLight.ModuleFindOrLoad | drv-loader/include/lazy_loader_light.hpp:263-286 | a hit (the first module with the name's hash) makes no call, keeps the registry and copies that module into `elem`; a miss makes one `load_module` call; with answer 0 the registry and `elem` stay as they were; any other answer appends a new module with empty imports and copies it into `elem` |
| LazyLoaderLight.ModuleCollection.constructor | drv-loader/include/lazy_loader_light.hpp:233-236 | the singleton starts with an empty, well-formed registry |
| LazyLoaderLight.ModuleCollection.FindOrLoad | drv-loader/include/lazy_loader_light.hpp:263-286 | registry, `elem` and loader calls are those of `ModuleFindOrLoad` for the loader's answer; the registry stays well formed |
| LazyLoaderLight.ModuleFindOrLoadPreserves | drv-loader/include/lazy_loader_light.hpp:263-286 | the registry keeps distinct hashes, non-zero handles and empty imports; it grows by at most one module at its end |
| LazyLoaderLight.ModuleFindOrLoadTwice | drv-loader/include/lazy_loader_light.hpp:263-286 | a module found or loaded is found again without a loader call; a failed load is retried |
| LazyLoaderLight.ModuleFindOrLoadOfDefault | drv-loader/include/lazy_loader_light.hpp:245-249 | a default module's unspecified hash and name never show through a find-or-load |
| LazyLoaderLight.Register | drv-loader/include/lazy_loader_light.hpp:242-256 | at most two loader calls; an empty module name changes nothing, calls nothing and gives the invalid import; an empty function name gives the invalid import; a valid result needs both names; the registry grows by at most one module at its end |
| LazyLoaderLight.ModuleCollection.RegisterImport | drv-loader/include/lazy_loader_light.hpp:242-256 | registry, loader calls and result are those of `Register` for the loader's two answers; the registry stays well formed |
| LazyLoaderLight.RegisterPreserves | drv-loader/include/lazy_loader_light.hpp:242-256 | `register_import` keeps the registry well formed |
| LazyLoaderLight.RegisterAlwaysResolves | drv-loader/include/lazy_loader_light.hpp:242-256 | with both names given, exactly one `get_symbol` call, after a `load_module` call on a miss; the result is valid exactly when `get_symbol` answered non-zero |
| LazyLoaderLight.FailedLoadStillResolves | drv-loader/include/lazy_loader_light.hpp:242-256 | after a failed load the registry is unchanged and `get_symbol(0, name)` is still called |
| LazyLoaderLight.RegisterSentinels | drv-loader/include/lazy_loader_light.hpp:242-256 | no module name: nothing happens; no symbol name: only the module lookup happens and the result is invalid; a valid result is the named symbol at the resolved address |
| LazyLoaderLight.RegisterTwice | drv-loader/include/lazy_loader_light.hpp:242-256 | a second call for a registered module loads nothing and leaves the registry alone, but calls `get_symbol` again |
| LazyLoaderLight.HashCollisionSharesModule | drv-loader/include/lazy_loader_light.hpp:264-267 | under a colliding hash a request for "b.dll" reuses "a.dll" and resolves in it |
| LazyLoaderLight.ModuleCollection.RegisterImportPath | drv-loader/include/lazy_loader_light.hpp:258-261 | `register_import(path)` is `register_import` on the two components of `Split(path)` |
| LazyLoaderLight.UnloadByName | drv-loader/include/lazy_loader_light.hpp:288-299 | a miss changes nothing and calls nothing; a hit frees the first matching module's handle once and removes exactly that module, keeping the others in order |
| LazyLoaderLight.ModuleCollection.Unload | drv-loader/include/lazy_loader_light.hpp:288-299 | registry and loader calls are those of `UnloadByName` for the loader's answer; the registry stays well formed |
| LazyLoaderLight.UnloadErasesMatch | drv-loader/include/lazy_loader_light.hpp:288-299 | on a hit the matching module is freed once and erased, the others keep their order, and no module keeps that hash; otherwise nothing happens |
| LazyLoaderLight.EraseKeepsRegistry | drv-loader/include/lazy_loader_light.hpp:297 | erasing one module keeps the registry well formed and shifts the later modules down by one |
| LazyLoaderLight.UnloadThenRegisterReloads | drv-loader/include/lazy_loader_light.hpp:288-299 | after `unload(name)` the next request for that name calls `load_module` first |
| LazyLoaderLight.ModuleCollection.Teardown | drv-loader/include/lazy_loader_light.hpp:222-226 | the destructor frees every module's handle once, in registry order, and makes no other call |
| HexString.HexDigits | drv-loader/include/helpers.hpp:32 | lowercase base-16 digits with no redundant leading zero ("0" for zero) that denote `n` |
| HexString.DigitsLength | drv-loader/include/helpers.hpp:29 | a value below 16^k has at most k digits |
| HexString.HexText | drv-loader/include/helpers.hpp:32 | the `to_chars` text: '-' first exactly for negatives, then at least one lowercase digit, no redundant leading zero, denoting the magnitude |
| HexString.ToChars | drv-loader/include/helpers.hpp:32 | characters are produced exactly when the text fits the capacity |
| HexString.BufferIsLargeEnough | drv-loader/include/helpers.hpp:29-32 | the buffer size holds the text of every value of T |
| HexString.ToHexString | drv-loader/include/helpers.hpp:25-35 | no longer than the buffer; '-' first exactly for negatives and never for unsigned T; the rest is the canonical lowercase digits of the magnitude |
| HexString.DigitRun | drv-loader/include/helpers.hpp:42 | the length of the longest prefix of base-16 digits in either case |
| HexString.FromChars | drv-loader/include/helpers.hpp:42 | `from_chars`: invalid argument exactly when no digit starts the input, after a '-' that only a signed T admits; otherwise it consumes the optional sign and the longest run of digits in either case, and the result is parsed exactly when the signed value of those digits lies in T's range, and is then that value |
| HexString.FromHexString | drv-loader/include/helpers.hpp:37-45 | no value when no digit starts the input (after a '-' for signed T only); otherwise the signed value of the longest digit run when it lies in T's range, and no value when it does not |
| HexString.ParseBody | drv-loader/include/helpers.hpp:37-45 | an admitted sign, a digit string and a non-digit rest parse to the signed value of the digits when it lies in T's range |
| HexString.ToHexStringIsHexText | drv-loader/include/helpers.hpp:32-34 | `to_hex_string` returns exactly what `to_chars` writes |
| HexString.ParseHexText | drv-loader/include/helpers.hpp:37-45 | parsing the text of a value of T, followed by a non-digit, gives the value |
| HexString.RoundTripWithSuffix | drv-loader/include/helpers.hpp:25-45 | `from_hex_string(to_hex_string(x) + rest) == x` when `rest` does not start with a digit |
| HexString.RoundTrip | drv-loader/include/helpers.hpp:25-45 | `from_hex_string<T>(to_hex_string<T>(x)) == x` for every value of T |
| HexString.ValueIgnoresCase | drv-loader/include/helpers.hpp:42 | upper- and lowercase digits denote the same value |
| HexString.FromHexStringReadsEitherCase | drv-loader/include/helpers.hpp:37-45 | "FF" and "ff" both parse to 255 for an unsigned byte |
| HexString.FromHexStringRejectsOutOfRange | drv-loader/include/helpers.hpp:37-45 | "100" is out of range for an unsigned byte, and "-1" has no digit an unsigned byte admits, so both give no value |
| HexString.FromHexStringReadsMinimum | drv-loader/include/helpers.hpp:37-45 | "-80" parses to -128 for a signed byte |
| HexString.FromHexStringStopsAtNonDigit | drv-loader/include/helpers.hpp:37-45 | "0x1f" parses to 0; "-" and "" give no value |
| Scoped.ScopedHandle.constructor | drv-loader/include/helpers.hpp:115 | the wrapper holds the given handle (`INVALID_HANDLE_VALUE` by default) and has closed nothing |
| Scoped.ScopedHandle.SafeCloseHandle | drv-loader/include/helpers.hpp:106-111 | a held handle is closed once, then the wrapper holds `INVALID_HANDLE_VALUE`; ownership stays exact |
| Scoped.ScopedHandle.Reset | drv-loader/include/helpers.hpp:119-122 | the held handle is closed if valid, then the new one is held; ownership stays exact |
| Scoped.ScopedHandle.Dispose | drv-loader/include/helpers.hpp:117 | the destructor closes what is held; every valid handle ever given is then closed exactly once, in order |
| Scoped.CloseThenDispose | drv-loader/include/helpers.hpp:106-117 | closing twice and then destroying closes a valid handle once and an invalid one never |
| Scoped.DefaultClosesNothing | drv-loader/include/helpers.hpp:115-117 | a default wrapper holds `INVALID_HANDLE_VALUE`, and its destructor closes nothing |
| Scoped.ResetThenDispose | drv-loader/include/helpers.hpp:115-122 | reset and destruction close the old handle, then the new one, each only if valid |
| Scoped.ScopedPtr.constructor | drv-loader/include/helpers.hpp:54 | the wrapper holds the given pointer and has deleted nothing |
| Scoped.ScopedPtr.Reset | drv-loader/include/helpers.hpp:58 | `_ptr` is replaced and nothing is deleted |
| Scoped.ScopedPtr.Dispose | drv-loader/include/helpers.hpp:56 | the destructor deletes `_ptr` if it is not null, and nothing else |
| Scoped.ResetLeaks | drv-loader/include/helpers.hpp:54-58 | after a reset from `p` to `q` only `q` is deleted; a non-null `p` other than `q` is never deleted |
| Scoped.ScopedPtrToPtr.constructor | drv-loader/include/helpers.hpp:89 | the wrapper holds the given pointer and has deleted nothing |
| Scoped.ScopedPtrToPtr.Reset | drv-loader/include/helpers.hpp:93-96 | a non-null old pointer is deleted first, then the new one is held; ownership stays exact |
| Scoped.ScopedPtrToPtr.Dispose | drv-loader/include/helpers.hpp:91 | the destructor deletes what is held; every non-null pointer ever given is then deleted exactly once, in order |
| Scoped.ResetDeletes | drv-loader/include/helpers.hpp:89-96 | after a reset from `p` to `q` and destruction, `p` and then `q` are deleted, each only if non-null |

## Left out

- The OS loader calls are not modelled: `LoadLibraryA`/`dlopen`, `GetProcAddress`/`dlsym`, `FreeLibrary`/`dlclose`. Their answers are free inputs recorded in the log.
- `CloseHandle` and `delete` are events in a log, not calls. The pointee's type and its destructor are not modelled.
- `delete` of a `void*` is undefined in C++. The model records it as an ordinary deletion.
- `std::hash` is an uninterpreted parameter of the registry, and nothing about its values is assumed.
- The `err` strings built on a failed load or resolution and `dlerror()` are left out, since they are discarded without effect.
- Calling an import (`operator()`, `call`, `Functor`) and the read-only accessors (`name`, `ptr`, `hash`, `handle`, `imports`, `size`, `get`) are left out. The model reads its fields directly instead.
- `scoped_handle::get_ptr` is not modelled. It hands out `&_handle`, and a write through that pointer replaces the held handle. `add_privilege` uses it that way with `OpenProcessToken` (helpers.hpp:133), and the ghost history `taken` does not record such a write.
- The `LAZYCALL`, `LAZYLOAD` and `LAZYUNLOAD` macros are left out. They only forward to `register_import(path)` and `unload(name)`.
- Thread safety of the function-local statics (`instance`, `hashfn`) is left out. The model is single-threaded.
- The move constructors are not separate members. `emplace_back(basic_lazymodule(name, hmod))` in `find_or_load` moves the temporary in, and a growing vector moves its elements. The defaulted move yields the same value as a copy, so the model copies values.
- `to_ansi`, `to_unicode` and `add_privilege` in helpers.hpp are not part of this model. The same goes for drv-loader.hpp, main.cpp and functor.hpp.
- `lazyimport(name, ptr)` and `basic_lazymodule(name, hmod)` are modelled as values, `LazyImport(name, hashFn(name), ptr)` and `MakeModule`. They are not separate members with contracts.
- The registry's `std::vector` is a sequence of values. It is modelled without element addresses or iterator invalidation.
- The destructor of `basic_lazymodulecollection` is modelled as `Teardown`, which sets `modules` to `[]` at the end to stand for the vector's destruction.
- Integers are unbounded. An integral type T is its size in bytes and its signedness, and values outside T's range are never passed to `to_hex_string`, as the parameter type guarantees in C++.
- `uintptr_t` handles and addresses are natural numbers. No arithmetic is done on them.
- IsAlnum: characters are Unicode `char`s and bytes are not modelled. In C++ `isalnum` receives a plain `char`, and a byte at or above 0x80 is a negative argument, which is undefined behaviour. The model answers false for every non-ASCII character.
- Loader.Loader.LoadModule: the name is logged and hashed in full. The source passes `name.c_str()` to `load_module` and `function_name.c_str()` to `get_symbol` (lazy_loader_light.hpp:143, 273), so the OS sees a name that ends at the first embedded NUL, while the cache hashes the full string. Names containing NUL are not distinguished in the model.
- ToHexString: requires `InRange(t, x)`. In C++ the parameter's type already guarantees this.
- FromHexString: returns None where `from_chars` leaves the uninitialised `result` unwritten. None covers no digit and an out-of-range value, and stands for an indeterminate value.
- ScopedPtr: models `scoped_ptr<T>` and `scoped_ptr<void>` together, since both reset without deleting and differ only in the pointee type.
