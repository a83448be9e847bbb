/**
 * The platform loader backend (`WindowsLoader` / `UnixLoader` in lazy_loader_light.hpp)
 * as an oracle: its answers are not determined by the model, and every call is
 * recorded, with the answer it gave, in a log.
 */
module Loader {

  /** A `std::uintptr_t` module handle or symbol address; 0 is the failure sentinel. */
  type Addr = nat

  /** One call into the OS loader, with the answer it returned. */
  datatype LoaderCall =
    | Load(name: string, result: Addr)                 // load_module
    | Resolve(handle: Addr, name: string, result: Addr) // get_symbol
    | Free(handle: Addr, status: nat)                   // free_module

  /** The answer recorded in a call. */
  function AnswerOf(c: LoaderCall): nat {
    match c
    case Load(_, r) => r
    case Resolve(_, _, r) => r
    case Free(_, st) => st
  }

  /**
   * The answer of the call at position `from` of `log`, or 0 when the log is
   * shorter. A contract uses it to name the answer of the call a method made.
   */
  function NextAnswer(log: seq<LoaderCall>, from: nat): nat {
    if from < |log| then AnswerOf(log[from]) else 0
  }

  /** The answer of the last call in `log`, or 0 for an empty log. */
  function LastAnswer(log: seq<LoaderCall>): nat {
    if |log| == 0 then 0 else AnswerOf(log[|log| - 1])
  }

  class Loader {
    /** Every call made so far, oldest first. */
    var log: seq<LoaderCall>

    constructor ()
      ensures log == []
    {
      log := [];
    }

    /** `load_module(name)`: some handle, 0 when the module could not be opened. */
    method LoadModule(name: string) returns (h: Addr)
      modifies this
      ensures log == old(log) + [Load(name, h)]
    {
      h :| true;
      log := log + [Load(name, h)];
    }

    /** `get_symbol(handle, name)`: some address, 0 when the export was not found. */
    method GetSymbol(handle: Addr, name: string) returns (p: Addr)
      modifies this
      ensures log == old(log) + [Resolve(handle, name, p)]
    {
      p :| true;
      log := log + [Resolve(handle, name, p)];
    }

    /** `free_module(handle)`: the OS unload status, which no caller inspects. */
    method FreeModule(handle: Addr) returns (status: nat)
      modifies this
      ensures log == old(log) + [Free(handle, status)]
    {
      status :| true;
      log := log + [Free(handle, status)];
    }
  }
}
