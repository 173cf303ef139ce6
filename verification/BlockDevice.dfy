/** Block input and output over a byte image, and what it means for whole clusters. */
module BlockDevice {
  import opened Layout

  const IMAGE_SIZE := 4194304  // 4 MiB, 2048 clusters

  class BlockDevice {
    const image: array<byte>

    constructor (image: array<byte>)
      ensures this.image == image
    {
      this.image := image;
    }

    ghost predicate Valid() {
      image.Length == IMAGE_SIZE
    }

    /** The image, cluster by cluster. */
    ghost function Clusters(): (s: seq<ClusterBytes>)
      requires Valid()
      reads image
      ensures |s| == 2048
      ensures forall c | 0 <= c < 2048 :: s[c] == image[2048 * c .. 2048 * c + 2048]
    {
      seq(2048, c requires 0 <= c < 2048 reads image => image[2048 * c .. 2048 * c + 2048])
    }

    method ReadBlocks(lba: nat, count: nat) returns (data: seq<byte>)
      requires 512 * (lba + count) <= image.Length
      ensures data == image[512 * lba .. 512 * (lba + count)]
    {
      data := [];
      for i := 0 to count
        invariant data == image[512 * lba .. 512 * (lba + i)]
      {
        data := data + image[512 * (lba + i) .. 512 * (lba + i) + 512];
      }
    }

    method WriteBlocks(data: seq<byte>, lba: nat, count: nat)
      requires 512 * (lba + count) <= image.Length && 512 * count <= |data|
      modifies image
      ensures forall k | 0 <= k < image.Length ::
        image[k] == if 512 * lba <= k < 512 * (lba + count) then data[k - 512 * lba] else old(image[k])
    {
      for i := 0 to count
        invariant forall k | 0 <= k < image.Length ::
          image[k] == if 512 * lba <= k < 512 * (lba + i) then data[k - 512 * lba] else old(image[k])
      {
        forall k | 0 <= k < 512 {
          image[512 * (lba + i) + k] := data[512 * i + k];
        }
      }
    }

    method ReadCluster(c: nat) returns (data: ClusterBytes)
      requires Valid() && c < 2048
      ensures data == Clusters()[c]
    {
      data := ReadBlocks(4 * c, 4);
    }

    /** Writing one cluster replaces that cluster and no other. */
    method WriteCluster(data: ClusterBytes, c: nat)
      requires Valid() && c < 2048
      modifies image
      ensures Clusters() == old(Clusters())[c := data]
    {
      WriteBlocks(data, 4 * c, 4);
      forall x | 0 <= x < 2048
        ensures Clusters()[x] == old(Clusters())[c := data][x]
      {
        if x == c {
          assert image[2048 * c .. 2048 * c + 2048] == data;
        } else {
          assert image[2048 * x .. 2048 * x + 2048] == old(image[2048 * x .. 2048 * x + 2048]);
        }
      }
    }
  }
}
