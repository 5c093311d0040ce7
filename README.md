# Eva-to-LLVM compiler: the scope chain

This project models the symbol table of the Eva-to-LLVM compiler, the
`Environment` class. An environment maps variable names to compiled values. It
also holds a link to the environment that encloses it; the global environment
has no parent. `define` binds a name in the current environment only,
overwriting any binding it had there, and returns the value. `lookup` walks the
parent links and answers with the nearest binding. When no environment up to
the root binds the name, the compiler reports the name and exits.

The model is one module, `Environments` (`environment.dfy`):

- `Environment<V>` is a class. Its mutable field `record` is the source's
  `record_` map. Compiled values are opaque, so their type is the parameter `V`.
  `parent` is the source's `parent_` link. It is a `const`, because the source
  sets `parent_` in the constructor and never assigns it again.
- The ghost constant `Ancestors` holds every environment above this one. It
  gives `Valid()` (the chain is finite and ends at the root) something to
  decrease on. It also gives the read-only functions their `reads` frame.
  `Valid()` depends only on constant fields. So defining a name in any
  environment, a shared parent included, never invalidates another
  environment.
- `Chain()` is the specification: the records of the whole chain, innermost
  first. This is what `lookup` is proved against.
- `Resolve` and `Lookup` are read-only recursive functions, like the private
  `resolve` and the public `lookup`. The fatal exit becomes a null owner from
  `Resolve` and the result `Undefined(name)` from `Lookup`. `Undefined` carries
  the name that the diagnostic reports.
- `Define` is a method that updates `record` in place.

Because environments are objects, aliasing works as in the source. An
environment created below a parent sees bindings that are added to that
parent later. `NestedScopes` shows this.

## Model

| member | source | states |
|---|---|---|
| `Environments.Environment.constructor` | codes/eva-llvm/src/Environment.h:16-17 | the new environment holds exactly the given record and parent; its chain is its record followed by the parent's chain; the chain is valid (acyclic, ends at a root) |
| `Environments.Environment.Chain` | codes/eva-llvm/src/Environment.h:44-48 | the chain of records is never empty, starts with this environment's own record, and has length one exactly at the root |
| `Environments.Environment.Define` | codes/eva-llvm/src/Environment.h:20-23 | returns exactly the given value; the record gains that binding and is otherwise unchanged; every ancestor's record is unchanged; a later lookup of the name here gives the value even when a parent binds it; lookups of every other name and every lookup in the parent are unchanged |
| `Environments.Environment.Resolve` | codes/eva-llvm/src/Environment.h:32-42 | a non-null answer is this environment or an ancestor, and it binds the name; an environment that binds the name answers itself; a null answer (the fatal path) means neither this environment nor any ancestor binds the name |
| `Environments.Environment.Lookup` | codes/eva-llvm/src/Environment.h:26-28 | a name bound here yields its own binding; a failure reports the looked-up name; the value is read only from an environment that holds the key, so no default entry is inserted |
| `Environments.Environment.LookupDelegates` | codes/eva-llvm/src/Environment.h:33-41 | when this environment does not bind the name, the lookup equals the parent's lookup, and at the root it fails |
| `Environments.Environment.LookupInnermost` | codes/eva-llvm/src/Environment.h:32-42 | if position i of the chain is the innermost that binds the name, the lookup returns that position's value: inner bindings shadow outer ones |
| `Environments.Environment.LookupUndefinedIff` | codes/eva-llvm/src/Environment.h:37-39 | the lookup fails if and only if no environment from this one to the root binds the name; it never returns a default value |
| `Environments.Environment.LookupFound` | codes/eva-llvm/src/Environment.h:26-42 | every successful lookup returns the value at the innermost chain position that binds the name; with LookupInnermost this characterises lookup in both directions |
| `Environments.DefineTwice` | codes/eva-llvm/src/Environment.h:21 | defining one name twice in one environment leaves the second value in the record, and the lookup returns the second value |
| `Environments.NestedScopes` | codes/eva-llvm/src/Environment.h:16-42 | in a block below the global environment, a block binding shadows the global one; the global lookup still sees the outer value; a name defined only in the block is undefined globally; a global binding added after the block was opened is visible in it |

## Left out

- The diagnostic text and the process exit. `Logger.h` prints a fatal-error message that names the variable to standard error (codes/eva-llvm/src/Logger.h:10-13 and codes/eva-llvm/src/Environment.h:38). The model stops at the result `Undefined(name)`, which carries the name, because printing and exiting are I/O.
- `std::shared_ptr` ownership, `enable_shared_from_this` and reference counting. Environments are plain Dafny objects, and memory management is not modelled. Where the source's `resolve` returns a `shared_ptr` to the owning environment, the model returns the object itself.
- The meaning of `llvm::Value*`. Values are the opaque type parameter `V`, so a null value pointer is just one more value.
- `parent_` is not `const` in the source. Nothing there assigns it after construction, so the model makes it a constant.
- `codes/eva-llvm/src/EvaLLVM.h` sets up the LLVM context, module and builder, prints the module and writes `out.ll`. It is a wrapper over a foreign library and is not part of this model. Its `exec` is also an unfinished skeleton.
- `codes/eva-llvm/eva-llvm.cpp` and `codes/eva-llvm/src/eva-llvm.cpp` are drivers with fixed program strings and no logic. They are not part of this model.
