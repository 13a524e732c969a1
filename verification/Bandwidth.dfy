/** How long bytes take on a link, for the switch and the migrator alike. */
module Bandwidth {
  import opened Wrappers

  /** Nanoseconds at a bandwidth in gigabits per second, rounded down but at least one. */
  function TransferTime(gbps: real, bytes: nat): (t: nat)
    requires gbps > 0.0
    ensures t >= 1
  {
    Max(1, (bytes as real / (gbps / 8.0)).Floor)
  }

  /** A transfer takes at least a nanosecond, and otherwise just what the bandwidth asks for, rounded down. */
  lemma {:induction false} TransferBandwidth(gbps: real, bytes: nat)
    requires gbps > 0.0
    ensures var t := TransferTime(gbps, bytes);
            && 8.0 * bytes as real < (t + 1) as real * gbps
            && (t > 1 ==> t as real * gbps <= 8.0 * bytes as real)
  {
    var t, rate := TransferTime(gbps, bytes), gbps / 8.0;
    var exact := bytes as real / rate;
    assert exact * rate == bytes as real;
    assert exact < (t + 1) as real;
    assert exact * rate < (t + 1) as real * rate;
    if t > 1 {
      assert t as real <= exact;
      assert t as real * rate <= exact * rate;
    }
  }
}
