/** The objects that own native RandomX memory. The native library is an object that logs what is
    released, so that "released exactly once" can be stated; what it allocates are parameters. */
module RandomXVm {

  /** A native address; zero is the null pointer. */
  type Ptr = nat

  datatype Handle = CacheHandle(p: Ptr) | DataSetHandle(p: Ptr) | VmHandle(p: Ptr)

  class NativeLibrary {
    ghost var released: seq<Handle>

    constructor ()
      ensures released == []
    {
      released := [];
    }

    /** `randomx_release_cache`, `randomx_release_dataset` and `randomx_destroy_vm`. */
    method Release(h: Handle)
      modifies this
      ensures released == old(released) + [h]
    {
      released := released + [h];
    }
  }

  /** The handle, unless its address is null. */
  ghost function Owned(h: Handle): seq<Handle> {
    if h.p == 0 then [] else [h]
  }

  class RxDataSet {
    const lib: NativeLibrary
    var dataset: Ptr

    constructor (lib: NativeLibrary)
      ensures this.lib == lib && dataset == 0
    {
      this.lib := lib;
      dataset := 0;
    }

    method Dispose()
      modifies this, lib
      ensures dataset == 0
      ensures lib.released == old(lib.released) + Owned(DataSetHandle(old(dataset)))
    {
      if dataset != 0 {
        lib.Release(DataSetHandle(dataset));
        dataset := 0;
      }
    }

    method Init(obtained: Ptr) returns (p: Ptr)
      modifies this
      ensures p == dataset == obtained
    {
      dataset := obtained;
      p := dataset;
    }
  }

  class RxVm {
    const lib: NativeLibrary
    var cache: Ptr
    var vm: Ptr
    var ds: RxDataSet?

    ghost predicate Valid()
      reads this
    {
      ds != null ==> ds.lib == lib
    }

    /** The handles this object has to release. */
    ghost function Live(): seq<Handle>
      reads this, ds
    {
      Owned(VmHandle(vm)) + (if ds == null then [] else Owned(DataSetHandle(ds.dataset)))
      + Owned(CacheHandle(cache))
    }

    constructor (lib: NativeLibrary)
      ensures Valid() && this.lib == lib && ds == null && Live() == []
    {
      this.lib := lib;
      cache, vm, ds := 0, 0, null;
    }

    /** In fast mode the cache only serves to build the data set, and is released at once: the machine is
        created from the data set alone. Otherwise it is created from the cache. */
    method Init(fullMem: bool, cachePtr: Ptr, dataSetPtr: Ptr, createVm: (Ptr, Ptr) -> Ptr)
      requires Valid() && ds == null && Live() == []
      modifies this, lib
      ensures Valid() && (ds == null || fresh(ds))
      ensures fullMem ==>
        && Live() == Owned(VmHandle(createVm(0, dataSetPtr))) + Owned(DataSetHandle(dataSetPtr))
        && lib.released == old(lib.released) + [CacheHandle(cachePtr)]
      ensures !fullMem ==>
        && Live() == Owned(VmHandle(createVm(cachePtr, 0))) + Owned(CacheHandle(cachePtr))
        && lib.released == old(lib.released)
    {
      var dsPtr := 0;
      cache := cachePtr;
      if fullMem {
        ds := new RxDataSet(lib);
        dsPtr := ds.Init(dataSetPtr);
        lib.Release(CacheHandle(cache));
        cache := 0;
      }
      vm := createVm(cache, dsPtr);
    }

    /** Releases what is live, once: a second call releases nothing. */
    method Dispose()
      requires Valid()
      modifies this, ds, lib
      ensures Valid() && ds == old(ds)
      ensures Live() == []
      ensures lib.released == old(lib.released) + old(Live())
    {
      if vm != 0 {
        lib.Release(VmHandle(vm));
        vm := 0;
      }
      if ds != null {
        ds.Dispose();
      }
      if cache != 0 {
        lib.Release(CacheHandle(cache));
        cache := 0;
      }
    }
  }

  /** The life of one virtual machine of a seed: created, initialised, and disposed when its seed is
      deleted. Every handle obtained is released exactly once, and allocations that failed are not,
      except that fast mode releases its cache without looking. */
  method CreateAndDispose(lib: NativeLibrary, fullMem: bool, cachePtr: Ptr, dataSetPtr: Ptr,
                          createVm: (Ptr, Ptr) -> Ptr)
    returns (vm: RxVm)
    modifies lib
    ensures vm.Live() == []
    ensures lib.released == old(lib.released) +
      if fullMem then
        [CacheHandle(cachePtr)] + Owned(VmHandle(createVm(0, dataSetPtr))) + Owned(DataSetHandle(dataSetPtr))
      else Owned(VmHandle(createVm(cachePtr, 0))) + Owned(CacheHandle(cachePtr))
  {
    hide RxVm.Live, Owned;
    vm := new RxVm(lib);
    vm.Init(fullMem, cachePtr, dataSetPtr, createVm);
    vm.Dispose();
    Together(old(lib.released), [CacheHandle(cachePtr)], Owned(VmHandle(createVm(0, dataSetPtr))),
      Owned(DataSetHandle(dataSetPtr)));
  }

  lemma Together(done: seq<Handle>, a: seq<Handle>, b: seq<Handle>, c: seq<Handle>)
    ensures (done + a) + (b + c) == done + (a + b + c)
  {
  }
}
