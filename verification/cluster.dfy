/** Reading one guest cluster from the host (src/format/cluster.rs). */
module Clusters {

  import opened Bytes
  import opened Results
  import opened HostFile
  import Headers

  /** `read_cluster`: seek to `offset` and fill a buffer of exactly `clusterSize`
      bytes.  A failed seek (an offset of 2^63 or more) and a short read (the
      host ending inside the cluster, or before it) are both `UnexpectedEof`;
      an empty buffer is filled at any seekable offset.  The
      compression method and flag only produce a warning: compressed clusters are
      returned as raw bytes. */
  function ReadCluster(host: seq<byte>, offset: nat, clusterSize: nat,
                       compression: Headers.Compression, isCompressed: bool): (r: Result<seq<byte>, IoError>)
    ensures r.Ok? <==> CanSeek(offset) && (clusterSize == 0 || offset + clusterSize <= |host|)
    ensures r.Ok? ==> r.value == if clusterSize == 0 then [] else host[offset..offset + clusterSize]
    ensures r.Err? ==> r.error == UnexpectedEof
  {
    if !CanSeek(offset) then Err(UnexpectedEof)
    else
      var got := HostRead(host, offset, clusterSize);
      if |got| < clusterSize then Err(UnexpectedEof) else Ok(got)
  }
}
