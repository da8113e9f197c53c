/** The three parameter sets of FIPS 204 that the parameterised body is instantiated with. */
module MlDsaParams {
  import opened MlDsaRounding

  const N: nat := 256
  datatype Params = Dsa44 | Dsa65 | Dsa87 {
    function K(): (n: nat) ensures 4 <= n <= 8 { match this case Dsa44 => 4 case Dsa65 => 6 case Dsa87 => 8 }
    function L(): (n: nat) ensures 4 <= n <= 7 { match this case Dsa44 => 4 case Dsa65 => 5 case Dsa87 => 7 }
    function Eta(): (n: nat) ensures n == 2 || n == 4 { if Dsa65? then 4 else 2 }
    function Tau(): nat { match this case Dsa44 => 39 case Dsa65 => 49 case Dsa87 => 60 }
    function Beta(): (n: nat) ensures n == Tau() * Eta() && 0 < n < 1000 {
      match this case Dsa44 => 78 case Dsa65 => 196 case Dsa87 => 120
    }
    function Gamma1(): (n: nat) ensures n == 131072 || n == 524288 { if Dsa44? then 131072 else 524288 }
    function GammaDen(): Den { if Dsa44? then 88 else 32 }
    function Omega(): (n: nat) ensures 55 <= n <= 80 { match this case Dsa44 => 80 case Dsa65 => 55 case Dsa87 => 75 }
    function CTilde(): (n: nat) ensures 32 <= n <= 64 { match this case Dsa44 => 32 case Dsa65 => 48 case Dsa87 => 64 }

    /** Field widths in bits. */
    function ZBits(): (n: nat) ensures n == 18 || n == 20 { if Dsa44? then 18 else 20 }
    function EtaBits(): (n: nat) ensures n == 3 || n == 4 { if Dsa65? then 4 else 3 }
    function W1Bits(): (n: nat) ensures n == 6 || n == 4 { if Dsa44? then 6 else 4 }

    /** Packed sizes in bytes. */
    function ZBytes(): nat { 32 * ZBits() }
    function EtaBytes(): nat { 32 * EtaBits() }
    function W1Bytes(): nat { 32 * W1Bits() }
    function PkBytes(): nat { 32 + K() * 320 }
    function SkBytes(): nat { 128 + (L() + K()) * EtaBytes() + K() * 416 }
    function SigBytes(): nat { CTilde() + L() * ZBytes() + Omega() + K() }
  }

  /** The published sizes. */
  lemma Sizes(p: Params)
    ensures p.PkBytes() == (match p case Dsa44 => 1312 case Dsa65 => 1952 case Dsa87 => 2592)
    ensures p.SkBytes() == (match p case Dsa44 => 2560 case Dsa65 => 4032 case Dsa87 => 4896)
    ensures p.SigBytes() == (match p case Dsa44 => 2420 case Dsa65 => 3309 case Dsa87 => 4627)
    ensures p.K() * p.W1Bytes() <= p.SigBytes()
  {
  }
}
