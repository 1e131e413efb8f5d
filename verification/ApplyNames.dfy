// The names applypatch goes by, spelled out (applypatch.c:53-58, 727-733, 821-823, freecache.c:83-107),
// and what masking makes of a file it loads (applypatch.c:90-102).
module ApplyNames {
  import opened Bytes
  import opened Endian
  import opened PatchFormat
  import opened ImgFormat
  import opened FileSystem
  import opened ApplyPatch
  import Retouch
  import RetouchList

  // A partition's name starts with its kind.
  lemma PartitionNames(p: Path)
    ensures IsPartition(p) <==> exists rest {:trigger "MTD:" + rest} :: p == "MTD:" + rest || p == "EMMC:" + rest
  {
    if "MTD:" <= p {
      assert p == "MTD:" + p[4..];
    } else if "EMMC:" <= p {
      assert p == "EMMC:" + p[5..];
      assert |"MTD:" + p[5..]| == 4 + |p[5..]|;
    }
  }

  // A partition is loaded as it is, a file is masked.
  lemma LoadedAs(w: World, rest: string, content: seq<byte>)
    ensures Loaded(w, "MTD:" + rest, content) == Some(content) == Loaded(w, "EMMC:" + rest, content)
    ensures Loaded(w, "/" + rest, content) == w.mask(content)
  {
    assert ("/" + rest)[0] == '/';
  }

  // The patched file is put together beside the target, which is the source when it is "-".
  lemma OutNames(job: Job)
    ensures job.target_ == "-" ==> job.Out() == job.source + ".patch"
    ensures job.target_ != "-" ==> job.Out() == job.target_ + ".patch"
  {
  }

  // What may be deleted are the files in two directories, but for the saved source.
  lemma ExpendableNames(name: string)
    requires '/' !in name
    ensures Expendable("/cache/" + name) <==> name != "saved.file"
    ensures Expendable("/cache/recovery/otatest/" + name)
  {
    var a, b := "/cache/" + name, "/cache/recovery/otatest/" + name;
    assert a[7..] == name && b[24..] == name;
    assert a[..6] == "/cache" && a[6] == '/';
    assert b[..23] == "/cache/recovery/otatest" && b[23] == '/';
    assert "/cache/saved.file"[7..] == "saved.file";
    assert b[9] == 'c' && "/cache/saved.file"[9] == 'v';
  }

  lemma ExpendableOnly(p: Path) returns (name: string)
    requires Expendable(p)
    ensures '/' !in name && (p == "/cache/" + name || p == "/cache/recovery/otatest/" + name)
  {
    if InDirectory("/cache", p) {
      name := p[7..];
      assert p == p[..6] + [p[6]] + p[7..];
    } else {
      name := p[24..];
      assert p == p[..23] + [p[23]] + p[24..];
    }
  }

  // Masking gives a binary of relocated words their original values back.
  lemma MaskWritten(body: seq<byte>, es: seq<Retouch.Entry>, addr: seq<byte>, x: seq<byte>, list: seq<byte>)
    requires forall k :: 0 <= k < |es| ==> RetouchList.Writable(es[k])
    requires RetouchList.AllFit(RetouchList.FormsOf(es, Retouch.Entry(0, 0)))
    requires list == RetouchList.WrittenAll(RetouchList.FormsOf(es, Retouch.Entry(0, 0)))
    requires |addr| == 4 && x == RetouchList.Written(body, list, addr) && |x| < TWO31
    requires RetouchList.Apart(|body|, |list|, es)
    ensures MaskOf(x).Some? && RetouchList.Shifted(|body|, |list|, es, 0, x, MaskOf(x).value)
  {
    RetouchList.WrittenRetouched(body, es, addr, x, 0, list);
  }

  // Any other file is loaded as it is.
  lemma MaskOther(x: seq<byte>)
    requires |x| < 20 || x[|x| - 4..] != [0x50, 0x52, 0x45, 0x20]
             || x[|x| - 20..|x| - 12] != [0x52, 0x45, 0x54, 0x4f, 0x55, 0x43, 0x48, 0x20]
    ensures MaskOf(x) == Some(x)
  {
  }

  // The first eight bytes tell what kind of patch it is: "BSDIFF40", "IMGDIFF2", or none.
  lemma PatchFormats(w: World, patch: seq<byte>, data: seq<byte>, bonus: Option<seq<byte>>)
    ensures var start := patch[..if |patch| < 8 then |patch| else 8];
            if start == [0x42, 0x53, 0x44, 0x49, 0x46, 0x46, 0x34, 0x30] then
              PatchOutput(w, patch, data, bonus)
              == match Patched(w.z, data, patch, 0) case Some(t) => Applied(0, t) case None => Applied(-1, [])
            else if start == [0x49, 0x4d, 0x47, 0x44, 0x49, 0x46, 0x46, 0x32] then
              PatchOutput(w, patch, data, bonus) == Apply(w.z, w.zl, data, patch, bonus)
            else PatchOutput(w, patch, data, bonus) == Applied(1, [])
  {
  }
}
