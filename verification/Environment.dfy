// What the code asks for and does not decide itself.
module Environment {
  // The answers of memory allocators and of the kernel: whether request number k is granted. The code counts its
  // requests.
  type Answers = nat -> bool

  // One of the requests from number first up to number last was refused.
  ghost predicate Denied(answers: Answers, first: nat, last: nat) {
    exists k: nat :: first <= k < last && !answers(k)
  }

  lemma DeniedIn(answers: Answers, first: nat, middle: nat, last: nat)
    requires first <= middle <= last
    ensures Denied(answers, first, last) <==> Denied(answers, first, middle) || Denied(answers, middle, last)
  {
  }

  lemma DeniedOnce(answers: Answers, k: nat)
    ensures Denied(answers, k, k + 1) <==> !answers(k)
    ensures !Denied(answers, k, k)
  {
  }
}
